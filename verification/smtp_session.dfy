/** The per-connection SMTP state machine (email_ms/smtp/session.go).  A
    session greets, then reads one command line per turn and queues its
    reply on the connection, flushing after every turn.  The reaction to a
    command line is the function React; the class runs it over the
    connection. */
module SmtpSession {
  import opened Outcomes
  import Address
  import E = EmailModels
  import SmtpEnums
  import SmtpUtils
  import C = SmtpConnection

  // The replies.  Several already end in CRLF, and AddBuffer adds another.

  function MessageGreet(hostname: string): string { "220 " + hostname + " Greetings" }
  function MessageHelo(hostname: string): string { "250 " + hostname + " Hello" }
  function MessageEhlo(hostname: string): string { "250-" + hostname + " Hello\r\n" }
  const AdvertiseTls: string := "250-STARTTLS\r\n"
  /** messageSize formatted with the line limit of 512. */
  const SizeLine: string := "250-SIZE 512\r\n"
  const Pipelining: string := "250-PIPELINING\r\n"
  const Enhance: string := "250-ENHANCEDSTATUSCODES\r\n"
  const HelpLine: string := "250 HELP"
  const ResponseOk: string := "250 2.1.0 OK"
  const ResponseReady: string := "354 Ready"
  const ErrNestedEmail: string := "503 NESTEDEMAIL nested MAIL command\r\n"
  const ErrTooBig: string := "552 email is too big\r\n"
  function ErrInvalidEmail(message: string): string { "450 4.7.1 " + message + "\r\n" }

  /** The guard on the recipient list: more than this many refuses. */
  const MaxRecipients: nat := 100

  /** What EHLO queues; the STARTTLS line is left out of the advertisement. */
  function EhloReply(hostname: string): seq<string>
  {
    [MessageEhlo(hostname), SizeLine, Pipelining, Enhance, HelpLine]
  }

  /** Strings as AddBuffer arguments. */
  function Strs(ss: seq<string>): (args: seq<C.Arg>)
    ensures |args| == |ss| && forall i :: 0 <= i < |ss| ==> args[i] == C.Str(ss[i])
  {
    seq(|ss|, i requires 0 <= i < |ss| => C.Str(ss[i]))
  }

  datatype State = Greeting | Cmd | Data | Shutdown

  /** The commands the session reacts to, in the order they are tried. */
  datatype Command = Helo | Ehlo | Help | Mail | Rcpt | Rset | Quit | StartTls | DataCmd | Noop | Vrfy

  function Verb(c: Command): SmtpEnums.Command
  {
    match c
    case Helo => SmtpEnums.CmdHelo
    case Ehlo => SmtpEnums.CmdEhlo
    case Help => SmtpEnums.CmdHelp
    case Mail => SmtpEnums.CmdMail
    case Rcpt => SmtpEnums.CmdRcpt
    case Rset => SmtpEnums.CmdRset
    case Quit => SmtpEnums.CmdQuit
    case StartTls => SmtpEnums.CmdStartTls
    case DataCmd => SmtpEnums.CmdData
    case Noop => SmtpEnums.CmdNoop
    case Vrfy => SmtpEnums.CmdVrfy
  }

  /** The command a line starts with, if any. */
  function Classify(line: string): (c: Option<Command>)
    ensures c.Some? ==> SmtpEnums.Match(Verb(c.value), line)
    ensures c.None? ==> forall i :: 0 <= i < |SmtpEnums.Commands| ==> !SmtpEnums.Match(SmtpEnums.Commands[i], line)
  {
    if SmtpEnums.Match(SmtpEnums.CmdHelo, line) then Some(Helo)
    else if SmtpEnums.Match(SmtpEnums.CmdEhlo, line) then Some(Ehlo)
    else if SmtpEnums.Match(SmtpEnums.CmdHelp, line) then Some(Help)
    else if SmtpEnums.Match(SmtpEnums.CmdMail, line) then Some(Mail)
    else if SmtpEnums.Match(SmtpEnums.CmdRcpt, line) then Some(Rcpt)
    else if SmtpEnums.Match(SmtpEnums.CmdRset, line) then Some(Rset)
    else if SmtpEnums.Match(SmtpEnums.CmdQuit, line) then Some(Quit)
    else if SmtpEnums.Match(SmtpEnums.CmdStartTls, line) then Some(StartTls)
    else if SmtpEnums.Match(SmtpEnums.CmdData, line) then Some(DataCmd)
    else if SmtpEnums.Match(SmtpEnums.CmdNoop, line) then Some(Noop)
    else if SmtpEnums.Match(SmtpEnums.CmdVrfy, line) then Some(Vrfy)
    else None
  }

  /** The session's own fields, apart from the connection. */
  datatype SessionView = SessionView(state: State, envelope: Option<E.UnencryptedEmail>, tls: bool, eSMTP: bool)

  /** An envelope holding only its sender. */
  function Opened(from: Address.Address): E.UnencryptedEmail
  {
    E.UnencryptedEmail(from, [], [], [], "", "", "")
  }

  /** How a command line changes the session: the new fields, the reply
      queued (if any), whether the session closes, whether a TLS upgrade is
      attempted; or the nil-envelope fault of RCPT and DATA outside a
      transaction. */
  datatype Reaction =
    | Reaction(view: SessionView, reply: Option<seq<string>>, quits: bool, upgrades: bool)
    | NilEnvelope

  /** parseCMD after a line was read: only RCPT and DATA outside a
      transaction fault, only STARTTLS upgrades or touches the TLS flag, and
      every other recognised command is answered. */
  function React(v: SessionView, line: string, hostname: string, handshake: Option<string>): (r: Reaction)
    ensures r.NilEnvelope? ==>
              v.envelope.None? && (SmtpEnums.Match(SmtpEnums.CmdRcpt, line) || SmtpEnums.Match(SmtpEnums.CmdData, line))
    ensures r.Reaction? && r.upgrades ==> SmtpEnums.Match(SmtpEnums.CmdStartTls, line)
    ensures r.Reaction? && r.view.tls != v.tls ==> SmtpEnums.Match(SmtpEnums.CmdStartTls, line) && handshake.None?
    ensures r.Reaction? && r.reply.None? ==> Classify(line).None? || SmtpEnums.Match(SmtpEnums.CmdStartTls, line)
  {
    ClassifyIsMatch(line, Rcpt);
    ClassifyIsMatch(line, DataCmd);
    ClassifyIsMatch(line, StartTls);
    ReactTo(v, Classify(line), line, hostname, handshake)
  }

  /** The switch of parseCMD, once the line's command is known. */
  function ReactTo(v: SessionView, cmd: Option<Command>, line: string, hostname: string, handshake: Option<string>): (r: Reaction)
    requires cmd.Some? ==> |line| >= |Verb(cmd.value)|
    ensures r.NilEnvelope? ==> v.envelope.None? && (cmd == Some(Rcpt) || cmd == Some(DataCmd))
    ensures r.Reaction? && r.upgrades ==> cmd == Some(StartTls)
    ensures r.Reaction? && r.view.tls != v.tls ==> cmd == Some(StartTls) && handshake.None?
    ensures r.Reaction? && r.reply.None? ==> cmd.None? || cmd == Some(StartTls)
  {
    match cmd
    case None => Reaction(v, None, false, false)
    case Some(Helo) => Reaction(v.(envelope := None), Some([MessageHelo(hostname)]), false, false)
    case Some(Ehlo) => Reaction(v.(eSMTP := true, envelope := None), Some(EhloReply(hostname)), false, false)
    case Some(Help) => Reaction(v, Some([ResponseOk]), false, false)
    case Some(Mail) => MailReaction(v, line[|SmtpEnums.CmdMail|..])
    case Some(Rcpt) => RcptReaction(v, line[|SmtpEnums.CmdRcpt|..])
    case Some(Rset) => Reaction(v.(envelope := None), Some([ResponseOk]), false, false)
    case Some(Quit) => Reaction(v, Some([ResponseOk]), true, false)
    case Some(StartTls) => Reaction(v.(tls := v.tls || handshake.None?, envelope := None), None, false, true)
    case Some(DataCmd) => DataReaction(v)
    case Some(Noop) => Reaction(v, Some([ResponseOk]), false, false)
    case Some(Vrfy) => Reaction(v, Some([ResponseOk]), false, false)
  }

  /** MAIL FROM with its argument: refused inside a transaction, otherwise
      an envelope is opened for the parsed sender. */
  function MailReaction(v: SessionView, arg: string): (r: Reaction)
    ensures r.Reaction? && !r.quits && !r.upgrades && r.view.tls == v.tls && r.view.eSMTP == v.eSMTP
  {
    if v.envelope.Some? then Reaction(v, Some([ErrNestedEmail]), false, false)
    else
      var parsed := SmtpUtils.ParseEmailAddress(arg);
      match SmtpUtils.ErrorText(parsed)
      case Some(t) => Reaction(v, Some([ErrInvalidEmail(t)]), false, false)
      case None => Reaction(v.(envelope := Some(Opened(parsed.address))), Some([ResponseOk]), false, false)
  }

  /** RCPT TO with its argument: the nil envelope outside a transaction,
      the recipient guard, then the parsed recipient appended. */
  function RcptReaction(v: SessionView, arg: string): (r: Reaction)
    ensures r.Reaction? ==> !r.quits && !r.upgrades && r.view.tls == v.tls && r.view.eSMTP == v.eSMTP
  {
    if v.envelope.None? then NilEnvelope
    else if |v.envelope.value.toList| > MaxRecipients then
      Reaction(v, Some([ErrInvalidEmail("too many recipients")]), false, false)
    else
      var parsed := SmtpUtils.ParseEmailAddress(arg);
      match SmtpUtils.ErrorText(parsed)
      case Some(t) => Reaction(v, Some([ErrInvalidEmail(t)]), false, false)
      case None =>
        var env := v.envelope.value;
        Reaction(v.(envelope := Some(env.(toList := env.toList + [parsed.address]))), Some([ResponseOk]), false, false)
  }

  /** DATA: the nil envelope outside a transaction, a refusal without
      recipients, otherwise the Data state. */
  function DataReaction(v: SessionView): (r: Reaction)
    ensures r.Reaction? ==> !r.quits && !r.upgrades && r.view.tls == v.tls && r.view.eSMTP == v.eSMTP
  {
    if v.envelope.None? then NilEnvelope
    else if |v.envelope.value.toList| == 0 then
      Reaction(v, Some([ErrInvalidEmail("no recipients")]), false, false)
    else Reaction(v.(state := Data), Some([ResponseReady]), false, false)
  }

  /** A command line never ends the session's state machine: the only
      state it changes is Cmd to Data, on an accepted DATA. */
  lemma ReactKeepsState(v: SessionView, line: string, hostname: string, handshake: Option<string>)
    ensures var r := React(v, line, hostname, handshake);
            r.Reaction? ==> r.view.state == v.state || (r.view.state == Data && Classify(line) == Some(DataCmd))
  {
  }

  /** The position of a command's verb in the command table. */
  function Index(c: Command): (i: nat)
    ensures i < |SmtpEnums.Commands| && SmtpEnums.Commands[i] == Verb(c)
  {
    match c
    case Helo => 0
    case Ehlo => 1
    case Help => 2
    case Mail => 3
    case Rcpt => 4
    case Rset => 5
    case Vrfy => 6
    case Noop => 7
    case Quit => 8
    case DataCmd => 9
    case StartTls => 10
  }

  /** The switch picks exactly the command whose verb starts the line: as
      the verbs are prefix-free, the order of its cases does not matter. */
  lemma ClassifyIsMatch(line: string, c: Command)
    ensures Classify(line) == Some(c) <==> SmtpEnums.Match(Verb(c), line)
  {
    if SmtpEnums.Match(Verb(c), line) {
      assert SmtpEnums.Match(SmtpEnums.Commands[Index(c)], line);
      var d := Classify(line).value;
      SmtpEnums.AtMostOneMatch(line, Index(c), Index(d));
    }
  }

  /** A line that starts with no verb changes nothing and gets no reply. */
  lemma UnmatchedLineIgnored(v: SessionView, line: string, hostname: string, handshake: Option<string>)
    requires forall i :: 0 <= i < |SmtpEnums.Commands| ==> !SmtpEnums.Match(SmtpEnums.Commands[i], line)
    ensures React(v, line, hostname, handshake) == Reaction(v, None, false, false)
  {
    forall c: Command
      ensures !SmtpEnums.Match(Verb(c), line)
    {
      assert SmtpEnums.Commands[Index(c)] == Verb(c);
    }
  }

  /** Verbs are matched byte for byte, so a line starting with a lower-case
      letter, such as "helo example.com", is ignored. */
  lemma LowerCaseIgnored(v: SessionView, line: string, hostname: string, handshake: Option<string>)
    requires |line| > 0 && 'a' <= line[0] <= 'z'
    ensures React(v, line, hostname, handshake) == Reaction(v, None, false, false)
  {
    forall i | 0 <= i < |SmtpEnums.Commands|
      ensures !SmtpEnums.Match(SmtpEnums.Commands[i], line)
    {
      var c := SmtpEnums.Commands[i];
      assert |c| > 0 && 'A' <= c[0] <= 'Z' && c[0] != line[0];
    }
    UnmatchedLineIgnored(v, line, hostname, handshake);
  }

  /** The address parseEmail accepts from a command argument: the bytes
      between its first and last, when the argument has 4 to 253 bytes and
      what is inside is a valid address. */
  function Bracketed(arg: string): (a: Option<Address.Address>)
    ensures a.Some? ==> |arg| >= 2 && arg == [arg[0]] + a.value + [arg[|arg| - 1]]
  {
    if 4 <= |arg| <= 253 && Address.Validate(arg[1..|arg| - 1]).None? then Some(arg[1..|arg| - 1]) else None
  }

  /** parseEmail fails exactly when Bracketed finds nothing. */
  lemma ParseAgreesWithBracketed(arg: string)
    ensures SmtpUtils.ErrorText(SmtpUtils.ParseEmailAddress(arg)).None? <==> Bracketed(arg).Some?
    ensures Bracketed(arg).Some? ==> SmtpUtils.ParseEmailAddress(arg).address == Bracketed(arg).value
  {
    var p := SmtpUtils.ParseEmailAddress(arg);
    if p.Parsed? {
      assert p.address == arg[1..|arg| - 1];
    }
  }

  /** The replies of the form errInvalidEmail. */
  predicate IsInvalidEmailReply(reply: Option<seq<string>>)
  {
    reply.Some? && |reply.value| == 1 && |reply.value[0]| >= 10 && reply.value[0][..10] == "450 4.7.1 "
  }

  lemma InvalidEmailReply(message: string)
    ensures IsInvalidEmailReply(Some([ErrInvalidEmail(message)]))
  {
    assert ErrInvalidEmail(message)[..10] == "450 4.7.1 ";
  }

  /** MAIL FROM inside a transaction is refused and changes nothing. */
  lemma NestedMailRefused(v: SessionView, line: string, hostname: string, handshake: Option<string>)
    requires v.envelope.Some? && SmtpEnums.Match(SmtpEnums.CmdMail, line)
    ensures React(v, line, hostname, handshake) == Reaction(v, Some([ErrNestedEmail]), false, false)
  {
    ClassifyIsMatch(line, Mail);
  }

  /** MAIL FROM outside a transaction opens an envelope holding only the
      sender when the argument carries a valid address, and otherwise
      answers errInvalidEmail and changes nothing. */
  lemma MailOpensEnvelope(v: SessionView, line: string, hostname: string, handshake: Option<string>)
    requires v.envelope.None? && SmtpEnums.Match(SmtpEnums.CmdMail, line)
    ensures var a := Bracketed(line[|SmtpEnums.CmdMail|..]);
            var r := React(v, line, hostname, handshake);
            && r.Reaction? && !r.quits && !r.upgrades
            && (a.Some? ==> r.view == v.(envelope := Some(Opened(a.value))) && r.reply == Some([ResponseOk]))
            && (a.None? ==> r.view == v && IsInvalidEmailReply(r.reply))
  {
    ClassifyIsMatch(line, Mail);
    var arg := line[|SmtpEnums.CmdMail|..];
    ParseAgreesWithBracketed(arg);
    var t := SmtpUtils.ErrorText(SmtpUtils.ParseEmailAddress(arg));
    if t.Some? {
      InvalidEmailReply(t.value);
    }
  }

  /** RCPT TO outside a transaction dereferences the nil envelope. */
  lemma RcptOutsideTransactionFaults(v: SessionView, line: string, hostname: string, handshake: Option<string>)
    requires v.envelope.None? && SmtpEnums.Match(SmtpEnums.CmdRcpt, line)
    ensures React(v, line, hostname, handshake) == NilEnvelope
  {
    ClassifyIsMatch(line, Rcpt);
  }

  /** RCPT TO in a transaction: refused once more than 100 recipients are
      held, otherwise appends exactly the argument's address, or answers
      errInvalidEmail when there is none. */
  lemma RcptAppendsRecipient(v: SessionView, line: string, hostname: string, handshake: Option<string>)
    requires v.envelope.Some? && SmtpEnums.Match(SmtpEnums.CmdRcpt, line)
    ensures var env := v.envelope.value;
            var a := Bracketed(line[|SmtpEnums.CmdRcpt|..]);
            var r := React(v, line, hostname, handshake);
            && r.Reaction? && !r.quits && !r.upgrades
            && (|env.toList| > MaxRecipients ==>
                  r.view == v && r.reply == Some([ErrInvalidEmail("too many recipients")]))
            && (|env.toList| <= MaxRecipients && a.Some? ==>
                  r.view == v.(envelope := Some(env.(toList := env.toList + [a.value])))
                  && r.reply == Some([ResponseOk]))
            && (|env.toList| <= MaxRecipients && a.None? ==> r.view == v && IsInvalidEmailReply(r.reply))
  {
    ClassifyIsMatch(line, Rcpt);
    var arg := line[|SmtpEnums.CmdRcpt|..];
    ParseAgreesWithBracketed(arg);
    var t := SmtpUtils.ErrorText(SmtpUtils.ParseEmailAddress(arg));
    if t.Some? {
      InvalidEmailReply(t.value);
    }
  }

  /** DATA outside a transaction dereferences the nil envelope; inside one
      it enters the Data state only when there is a recipient. */
  lemma DataNeedsRecipients(v: SessionView, line: string, hostname: string, handshake: Option<string>)
    requires SmtpEnums.Match(SmtpEnums.CmdData, line)
    ensures var r := React(v, line, hostname, handshake);
            && (r.NilEnvelope? <==> v.envelope.None?)
            && (v.envelope.Some? && |v.envelope.value.toList| == 0 ==>
                  r == Reaction(v, Some([ErrInvalidEmail("no recipients")]), false, false))
            && (v.envelope.Some? && |v.envelope.value.toList| > 0 ==>
                  r == Reaction(v.(state := Data), Some([ResponseReady]), false, false))
  {
    ClassifyIsMatch(line, DataCmd);
    assert React(v, line, hostname, handshake) == DataReaction(v);
  }

  /** QUIT answers OK and closes; no other command closes. */
  lemma OnlyQuitCloses(v: SessionView, line: string, hostname: string, handshake: Option<string>)
    ensures var r := React(v, line, hostname, handshake);
            r.Reaction? && r.quits <==> SmtpEnums.Match(SmtpEnums.CmdQuit, line)
    ensures SmtpEnums.Match(SmtpEnums.CmdQuit, line) ==>
              React(v, line, hostname, handshake) == Reaction(v, Some([ResponseOk]), true, false)
  {
    ClassifyIsMatch(line, Quit);
    ReactToQuits(v, Classify(line), line, hostname, handshake);
  }

  /** Of the switch's cases, only QUIT closes. */
  lemma ReactToQuits(v: SessionView, cmd: Option<Command>, line: string, hostname: string, handshake: Option<string>)
    requires cmd.Some? ==> |line| >= |Verb(cmd.value)|
    ensures var r := ReactTo(v, cmd, line, hostname, handshake);
            r.Reaction? && r.quits <==> cmd == Some(Quit)
  {
    match cmd
    case None =>
    case Some(c) =>
      if c == Quit {
        assert ReactTo(v, cmd, line, hostname, handshake) == Reaction(v, Some([ResponseOk]), true, false);
      }
  }

  /** STARTTLS queues no reply and drops the envelope; the session counts
      as TLS only when the handshake succeeds. */
  lemma StartTlsOutcome(v: SessionView, line: string, hostname: string, handshake: Option<string>)
    requires SmtpEnums.Match(SmtpEnums.CmdStartTls, line)
    ensures var r := React(v, line, hostname, handshake);
            && r.Reaction? && r.upgrades && r.reply.None? && !r.quits
            && r.view.envelope.None? && r.view.state == v.state && r.view.eSMTP == v.eSMTP
            && (r.view.tls <==> v.tls || handshake.None?)
  {
    ClassifyIsMatch(line, StartTls);
  }

  /** HELO, EHLO, RSET and STARTTLS end the transaction; HELP, NOOP, VRFY
      and QUIT leave the session's fields as they are. */
  lemma TransactionResets(v: SessionView, line: string, hostname: string, handshake: Option<string>, c: Command)
    requires SmtpEnums.Match(Verb(c), line)
    ensures var r := React(v, line, hostname, handshake);
            && (c in {Helo, Ehlo, Rset, StartTls} ==> r.Reaction? && r.view.envelope.None? && r.view.state == v.state)
            && (c in {Help, Noop, Vrfy, Quit} ==> r.Reaction? && r.view == v && r.reply == Some([ResponseOk]))
  {
    ClassifyIsMatch(line, c);
  }

  /** Only EHLO switches to extended SMTP, and it never switches back. */
  lemma ExtendedOnlyByEhlo(v: SessionView, line: string, hostname: string, handshake: Option<string>)
    ensures var r := React(v, line, hostname, handshake);
            r.Reaction? ==> (r.view.eSMTP <==> v.eSMTP || SmtpEnums.Match(SmtpEnums.CmdEhlo, line))
  {
    ClassifyIsMatch(line, Ehlo);
  }

  /** The Cmd-state turns over a run of lines: it stops at a fault or at
      QUIT, and otherwise carries the fields from one line to the next. */
  function Run(v: SessionView, lines: seq<string>, hostname: string, handshake: Option<string>): SessionView
    decreases |lines|
  {
    if lines == [] then v
    else match React(v, lines[0], hostname, handshake)
      case NilEnvelope => v
      case Reaction(w, _, quits, _) => if quits then w else Run(w, lines[1..], hostname, handshake)
  }

  /** The bound the recipient guard keeps: since it refuses only when more
      than 100 are already held, an envelope can reach 101 recipients but
      never more. */
  predicate RecipientsWithin(v: SessionView)
  {
    v.envelope.Some? ==> |v.envelope.value.toList| <= MaxRecipients + 1
  }

  lemma ReactKeepsRecipientsWithin(v: SessionView, line: string, hostname: string, handshake: Option<string>)
    requires RecipientsWithin(v)
    ensures var r := React(v, line, hostname, handshake);
            r.Reaction? ==> RecipientsWithin(r.view)
  {
    ReactToKeepsRecipientsWithin(v, Classify(line), line, hostname, handshake);
  }

  /** Each case of the switch keeps the bound: only RCPT adds a recipient,
      and only below the guard. */
  lemma ReactToKeepsRecipientsWithin(v: SessionView, cmd: Option<Command>, line: string, hostname: string, handshake: Option<string>)
    requires cmd.Some? ==> |line| >= |Verb(cmd.value)|
    requires RecipientsWithin(v)
    ensures var r := ReactTo(v, cmd, line, hostname, handshake);
            r.Reaction? ==> RecipientsWithin(r.view)
  {
    match cmd
    case None =>
    case Some(c) =>
  }

  lemma {:induction false} RunKeepsRecipientsWithin(v: SessionView, lines: seq<string>, hostname: string, handshake: Option<string>)
    requires RecipientsWithin(v)
    ensures RecipientsWithin(Run(v, lines, hostname, handshake))
    decreases |lines|
  {
    if lines != [] {
      ReactKeepsRecipientsWithin(v, lines[0], hostname, handshake);
      match React(v, lines[0], hostname, handshake)
      case NilEnvelope =>
      case Reaction(w, _, quits, _) =>
        if !quits {
          RunKeepsRecipientsWithin(w, lines[1..], hostname, handshake);
        }
    }
  }

  /** The 101st recipient is accepted. */
  lemma HundredAndFirstRecipient(v: SessionView, line: string, hostname: string, handshake: Option<string>)
    requires v.envelope.Some? && |v.envelope.value.toList| == MaxRecipients
    requires SmtpEnums.Match(SmtpEnums.CmdRcpt, line) && Bracketed(line[|SmtpEnums.CmdRcpt|..]).Some?
    ensures var r := React(v, line, hostname, handshake);
            r.Reaction? && r.view.envelope.Some? && |r.view.envelope.value.toList| == MaxRecipients + 1
  {
    RcptAppendsRecipient(v, line, hostname, handshake);
  }

  /** What EHLO puts on the wire: each advertised line already ends in
      CRLF and AddBuffer adds another, so an empty line follows each of the
      first four, which a multiline reply in the sense of section 4.2.1 of
      RFC 5321 does not allow. */
  lemma EhloWire(hostname: string)
    ensures C.Frame(Strs(EhloReply(hostname)))
            == MessageEhlo(hostname) + "\r\n" + SizeLine + "\r\n" + Pipelining + "\r\n"
               + Enhance + "\r\n" + HelpLine + "\r\n"
    ensures MessageEhlo(hostname) + "\r\n" == "250-" + hostname + " Hello\r\n\r\n"
  {
    var items := Strs(EhloReply(hostname));
    var crlf := "\r\n";
    assert items[1..][1..][1..][1..] == [C.Str(HelpLine)];
    assert items[1..][1..][1..][1..][1..] == [];
    var f4 := C.Frame(items[1..][1..][1..][1..]);
    assert f4 == HelpLine + crlf + C.Frame([]);
    assert HelpLine + crlf + [] == HelpLine + crlf;
    var f3 := C.Frame(items[1..][1..][1..]);
    assert f3 == Enhance + crlf + f4;
    var f2 := C.Frame(items[1..][1..]);
    assert f2 == Pipelining + crlf + f3;
    var f1 := C.Frame(items[1..]);
    assert f1 == SizeLine + crlf + f2;
    assert C.Frame(items) == MessageEhlo(hostname) + crlf + f1;
    var head := "250-" + hostname;
    assert " Hello\r\n" + crlf == " Hello\r\n\r\n";
    assert head + " Hello\r\n" + crlf == head + (" Hello\r\n" + crlf);
  }

  /** The bytes the greeting puts on the wire. */
  function GreetWire(hostname: string): string
  {
    C.Frame([C.Str(MessageGreet(hostname))])
  }

  /** How a turn in the Data state ends: the body was accepted, refused
      with a message, or reading it panicked. */
  datatype DataVerdict = Accepted | Refused(message: string) | Panicked

  /** The text of a read failure; io.EOF prints as "EOF". */
  function FailureText(f: C.ReadFailure): string
  {
    match f
    case EndOfStream => "EOF"
    case Failure(m) => m
  }

  /** readData: the envelope read from the socket, then parsed as MIME. */
  function DataVerdictOf(o: C.EnvelopeOutcome, parseMime: string -> Option<string>): DataVerdict
  {
    match o
    case Envelope(d) => (match parseMime(d) case None => Accepted case Some(m) => Refused(m))
    case ReadFailed(f) => Refused(FailureText(f))
    case TooBig => Refused("too big")
    case SlicePanic => Panicked
  }

  /** How startSession ends: the loop never ran, the clientStateShutdown
      return, a Flush on the nil connection left by close, a failed Flush,
      one of the panics, or (in this model) the turn budget ran out. */
  datatype Exit = Ended | Returned | NilConnFlush | FlushFailed(message: string)
                | NilEnvelopeFault | EnvelopePanic | OutOfFuel

  class Session {
    const sessionId: string
    var conn: C.ConnectionAdapter?
    var envelope: Option<E.UnencryptedEmail>
    var state: State
    var tls: bool
    var eSMTP: bool

    function View(): SessionView
      reads this
    {
      SessionView(state, envelope, tls, eSMTP)
    }

    /** NewSession: a fresh session in the Greeting state. */
    constructor (sessionId: string, conn: C.ConnectionAdapter?)
      ensures this.sessionId == sessionId && this.conn == conn
      ensures state == Greeting && envelope.None? && !tls && !eSMTP
    {
      this.sessionId := sessionId;
      this.conn := conn;
      envelope := None;
      state := Greeting;
      tls := false;
      eSMTP := false;
    }

    /** isAlive: the session still holds a connection. */
    predicate IsAlive()
      reads this
    {
      conn != null
    }

    /** inTransaction: an envelope is open. */
    predicate InTransaction()
      reads this
    {
      envelope.Some?
    }

    /** resetTransaction: the open envelope is dropped. */
    method ResetTransaction()
      modifies this
      ensures View() == old(View()).(envelope := None) && conn == old(conn)
    {
      envelope := None;
    }

    /** close: closes the connection, then forgets it; without a connection
        the call faults. */
    method Close() returns (fault: bool)
      modifies this, conn
      ensures fault <==> old(conn) == null
      ensures !fault ==> conn == null && old(conn).closed
      ensures !fault ==> old(conn).inbound == old(conn.inbound) && old(conn).bufout == old(conn.bufout)
      ensures !fault ==> old(conn).sent == old(conn.sent) && old(conn).tls == old(conn.tls)
      ensures !fault ==> old(conn).raw == old(conn.raw)
      ensures fault ==> conn == old(conn)
      ensures View() == old(View())
    {
      if conn == null {
        return true;
      }
      conn.Close();
      conn := null;
      return false;
    }

    /** parseCMD: reads a line; a read error closes the session; otherwise
        the line is handled as React says. */
    method ParseCmd(hostname: string, handshake: Option<string>) returns (fault: bool)
      requires conn != null
      modifies this, conn
      ensures '\n' !in old(conn.inbound) ==>
                !fault && conn == null && old(conn).closed && View() == old(View())
                && old(conn).bufout == old(conn.bufout) && old(conn).inbound == ""
      ensures '\n' in old(conn.inbound) ==>
                var r := React(old(View()), C.FirstLine(old(conn.inbound)), hostname, handshake);
                && (fault <==> r.NilEnvelope?)
                && old(conn).inbound == C.AfterFirstLine(old(conn.inbound))
                && (!fault ==>
                      && View() == r.view
                      && old(conn).bufout == (if r.reply.Some? then C.Frame(Strs(r.reply.value)) else old(conn.bufout))
                      && (conn == null <==> r.quits)
                      && (conn != null ==> conn == old(conn))
                      && old(conn).closed == (old(conn.closed) || r.quits)
                      && old(conn).tls == (old(conn.tls) || (r.upgrades && handshake.None?)))
      ensures old(conn).sent == old(conn.sent) && old(conn).raw == old(conn.raw)
      ensures conn == null || conn == old(conn)
      ensures fault ==> View() == old(View())
    {
      var read := conn.ReadLine();
      if read.Err? {
        fault := Close();
        return false;
      }
      fault := Dispatch(Classify(read.value), read.value, hostname, handshake);
    }

    /** The switch of parseCMD over a line that was read. */
    method Dispatch(cmd: Option<Command>, line: string, hostname: string, handshake: Option<string>) returns (fault: bool)
      requires conn != null
      requires cmd.Some? ==> |line| >= |Verb(cmd.value)|
      modifies this, conn
      ensures var r := ReactTo(old(View()), cmd, line, hostname, handshake);
              && (fault <==> r.NilEnvelope?)
              && (!fault ==>
                    && View() == r.view
                    && old(conn).bufout == (if r.reply.Some? then C.Frame(Strs(r.reply.value)) else old(conn.bufout))
                    && (conn == null <==> r.quits)
                    && (conn != null ==> conn == old(conn))
                    && old(conn).closed == (old(conn.closed) || r.quits)
                    && old(conn).tls == (old(conn.tls) || (r.upgrades && handshake.None?)))
      ensures old(conn).sent == old(conn.sent) && old(conn).raw == old(conn.raw)
      ensures old(conn).inbound == old(conn.inbound)
      ensures conn == null || conn == old(conn)
      ensures fault ==> View() == old(View())
    {
      fault := false;
      var c := conn;
      match cmd
      case None =>
      case Some(Mail) =>
        fault := OnMail(line);
      case Some(Rcpt) =>
        fault := OnRcpt(line);
      case Some(Quit) =>
        OnQuit();
      case Some(StartTls) =>
        OnStartTls(handshake);
      case Some(DataCmd) =>
        fault := OnData();
      case Some(other) =>
        OnReply(other, hostname);
    }

    /** The QUIT branch: OK is queued and the session closed. */
    method OnQuit()
      requires conn != null
      modifies this, conn
      ensures View() == old(View()) && conn == null
      ensures old(conn).bufout == C.Frame(Strs([ResponseOk])) && old(conn).closed
      ensures old(conn).inbound == old(conn.inbound) && old(conn).sent == old(conn.sent) && old(conn).raw == old(conn.raw)
      ensures old(conn).tls == old(conn.tls)
    {
      conn.AddBuffer([C.Str(ResponseOk)]);
      var fault := Close();
    }

    /** The STARTTLS branch: the upgrade is attempted, the session counts
        as TLS only when it succeeds, and the transaction is reset. */
    method OnStartTls(handshake: Option<string>)
      requires conn != null
      modifies this, conn
      ensures View() == old(View()).(tls := old(tls) || handshake.None?, envelope := None) && conn == old(conn)
      ensures conn.tls == (old(conn.tls) || handshake.None?) && conn.bufout == old(conn.bufout)
      ensures conn.inbound == old(conn.inbound) && conn.sent == old(conn.sent) && conn.raw == old(conn.raw)
      ensures conn.closed == old(conn.closed)
    {
      var err := conn.UpgradeTLS(handshake);
      if err.None? {
        tls := true;
      }
      ResetTransaction();
    }

    /** The branches that only reset the transaction or queue a reply:
        HELO, EHLO, HELP, RSET, NOOP and VRFY. */
    method OnReply(cmd: Command, hostname: string)
      requires conn != null && cmd in {Helo, Ehlo, Help, Rset, Noop, Vrfy}
      modifies this, conn
      ensures var r := ReactTo(old(View()), Some(cmd), Verb(cmd), hostname, None);
              && r.Reaction? && View() == r.view && conn == old(conn)
              && conn.bufout == C.Frame(Strs(r.reply.value))
      ensures conn.inbound == old(conn.inbound) && conn.sent == old(conn.sent) && conn.raw == old(conn.raw)
      ensures conn.closed == old(conn.closed) && conn.tls == old(conn.tls)
    {
      match cmd
      case Helo =>
        ResetTransaction();
        conn.AddBuffer([C.Str(MessageHelo(hostname))]);
      case Ehlo =>
        eSMTP := true;
        ResetTransaction();
        conn.AddBuffer(Strs(EhloReply(hostname)));
      case Rset =>
        ResetTransaction();
        conn.AddBuffer([C.Str(ResponseOk)]);
      case Help | Noop | Vrfy =>
        conn.AddBuffer([C.Str(ResponseOk)]);
      case _ =>
        assert false;
    }

    /** The MAIL FROM branch. */
    method OnMail(line: string) returns (fault: bool)
      requires conn != null && |line| >= |SmtpEnums.CmdMail|
      modifies this, conn
      ensures var r := ReactTo(old(View()), Some(Mail), line, "", None);
              && !fault && r.Reaction? && View() == r.view && conn == old(conn)
              && conn.bufout == C.Frame(Strs(r.reply.value))
      ensures conn.inbound == old(conn.inbound) && conn.sent == old(conn.sent) && conn.raw == old(conn.raw)
      ensures conn.closed == old(conn.closed) && conn.tls == old(conn.tls)
    {
      if InTransaction() {
        conn.AddBuffer([C.Str(ErrNestedEmail)]);
        return false;
      }
      var parsed := SmtpUtils.ParseEmailAddress(line[|SmtpEnums.CmdMail|..]);
      var t := SmtpUtils.ErrorText(parsed);
      if t.Some? {
        conn.AddBuffer([C.Str(ErrInvalidEmail(t.value))]);
        return false;
      }
      envelope := Some(Opened(parsed.address));
      conn.AddBuffer([C.Str(ResponseOk)]);
      return false;
    }

    /** The RCPT TO branch; it reads the envelope's list without checking
        that an envelope is open. */
    method OnRcpt(line: string) returns (fault: bool)
      requires conn != null && |line| >= |SmtpEnums.CmdRcpt|
      modifies this, conn
      ensures conn == old(conn)
      ensures var r := ReactTo(old(View()), Some(Rcpt), line, "", None);
              && (fault <==> r.NilEnvelope?)
              && (!fault ==> View() == r.view && conn.bufout == C.Frame(Strs(r.reply.value)))
      ensures fault ==> conn.bufout == old(conn.bufout) && View() == old(View())
      ensures conn.inbound == old(conn.inbound) && conn.sent == old(conn.sent) && conn.raw == old(conn.raw)
      ensures conn.closed == old(conn.closed) && conn.tls == old(conn.tls)
    {
      if envelope.None? {
        return true;
      }
      if |envelope.value.toList| > MaxRecipients {
        conn.AddBuffer([C.Str(ErrInvalidEmail("too many recipients"))]);
        return false;
      }
      var parsed := SmtpUtils.ParseEmailAddress(line[|SmtpEnums.CmdRcpt|..]);
      var t := SmtpUtils.ErrorText(parsed);
      if t.Some? {
        conn.AddBuffer([C.Str(ErrInvalidEmail(t.value))]);
        return false;
      }
      var env := envelope.value;
      envelope := Some(env.(toList := env.toList + [parsed.address]));
      conn.AddBuffer([C.Str(ResponseOk)]);
      return false;
    }

    /** The DATA branch; it too reads the envelope without a nil check. */
    method OnData() returns (fault: bool)
      requires conn != null
      modifies this, conn
      ensures conn == old(conn)
      ensures var r := ReactTo(old(View()), Some(DataCmd), SmtpEnums.CmdData, "", None);
              && (fault <==> r.NilEnvelope?)
              && (!fault ==> View() == r.view && conn.bufout == C.Frame(Strs(r.reply.value)))
      ensures fault ==> conn.bufout == old(conn.bufout) && View() == old(View())
      ensures conn.inbound == old(conn.inbound) && conn.sent == old(conn.sent) && conn.raw == old(conn.raw)
      ensures conn.closed == old(conn.closed) && conn.tls == old(conn.tls)
    {
      if envelope.None? {
        return true;
      }
      if |envelope.value.toList| == 0 {
        conn.AddBuffer([C.Str(ErrInvalidEmail("no recipients"))]);
        return false;
      }
      conn.AddBuffer([C.Str(ResponseReady)]);
      state := Data;
      return false;
    }

    /** readData: reads the body (up to the 25 MB limit) and parses it as
        MIME; a failure queues the error reply and drops the envelope. */
    method ReadData(parseMime: string -> Option<string>) returns (v: DataVerdict)
      requires conn != null
      modifies this, conn
      ensures conn == old(conn)
      ensures v == DataVerdictOf(C.ReadFrom(old(conn.raw), "").0, parseMime)
      ensures conn.raw == C.ReadFrom(old(conn.raw), "").1
      ensures v.Refused? ==> conn.bufout == C.Frame([C.Str(ErrInvalidEmail(v.message))])
                             && View() == old(View()).(envelope := None)
      ensures !v.Refused? ==> conn.bufout == old(conn.bufout) && View() == old(View())
      ensures conn.inbound == old(conn.inbound) && conn.sent == old(conn.sent) && conn.tls == old(conn.tls)
    {
      var o := conn.ReadEnvelope();
      v := DataVerdictOf(o, parseMime);
      if v.Refused? {
        conn.AddBuffer([C.Str(ErrInvalidEmail(v.message))]);
        ResetTransaction();
      }
    }

    /** The clientStateGreeting turn: the state becomes Cmd and the
        greeting is queued. */
    method GreetTurn(hostname: string)
      requires conn != null
      modifies this, conn
      ensures conn == old(conn)
      ensures View() == old(View()).(state := Cmd)
      ensures conn.bufout == C.Frame([C.Str(MessageGreet(hostname))])
      ensures conn.inbound == old(conn.inbound) && conn.raw == old(conn.raw) && conn.sent == old(conn.sent)
      ensures conn.closed == old(conn.closed) && conn.tls == old(conn.tls)
    {
      state := Cmd;
      conn.AddBuffer([C.Str(MessageGreet(hostname))]);
    }

    /** The clientStateData turn: readData, then the error reply or OK is
        queued (replacing what readData queued) and the envelope dropped;
        the state is left as it is. */
    method DataTurn(parseMime: string -> Option<string>) returns (panicked: bool)
      requires conn != null
      modifies this, conn
      ensures conn == old(conn)
      ensures var v := DataVerdictOf(C.ReadFrom(old(conn.raw), "").0, parseMime);
              && (panicked <==> v.Panicked?)
              && (v.Refused? ==> conn.bufout == C.Frame([C.Str(ErrInvalidEmail(v.message))]))
              && (v.Accepted? ==> conn.bufout == C.Frame([C.Str(ResponseOk)]))
      ensures !panicked ==> View() == old(View()).(envelope := None)
      ensures state == old(state)
      ensures conn.raw == C.ReadFrom(old(conn.raw), "").1
      ensures conn.inbound == old(conn.inbound) && conn.sent == old(conn.sent) && conn.tls == old(conn.tls)
    {
      var v := ReadData(parseMime);
      if v.Panicked? {
        return true;
      }
      if v.Refused? {
        conn.AddBuffer([C.Str(ErrInvalidEmail(v.message))]);
      } else {
        conn.AddBuffer([C.Str(ResponseOk)]);
      }
      ResetTransaction();
      return false;
    }

    /** The Flush that ends every turn; on the nil connection left by close
        it is a call on a nil interface. */
    method FlushTurn() returns (exit: Option<Exit>)
      modifies conn
      ensures conn == null ==> exit == Some(NilConnFlush)
      ensures conn != null ==>
                && (exit.None? <==> conn.bufout == "")
                && (old(conn.bufout) == "" ==> exit.None?)
                && (exit.Some? ==> exit.value.FlushFailed? && conn.sent == old(conn.sent))
                && (old(conn.bufout) != "" && !conn.closed && conn.writeFailure.None? ==> exit.None?)
                && (exit.None? ==> conn.sent == old(conn.sent) + old(conn.bufout))
                && conn.closed == old(conn.closed) && conn.tls == old(conn.tls)
                && conn.inbound == old(conn.inbound) && conn.raw == old(conn.raw)
    {
      if conn == null {
        return Some(NilConnFlush);
      }
      var err := conn.Flush();
      if err.Some? {
        return Some(FlushFailed(err.value));
      }
      return None;
    }

    /** A pass in the Greeting state: the greeting, then the Flush. */
    method GreetPass(hostname: string) returns (exit: Option<Exit>)
      requires conn != null && state == Greeting
      modifies this, conn
      ensures conn == old(conn)
      ensures View() == old(View()).(state := Cmd)
      ensures exit.None? ==> conn.sent == old(conn.sent) + GreetWire(hostname)
      ensures exit.Some? ==> exit.value.FlushFailed? && conn.sent == old(conn.sent)
                             && (conn.closed || conn.writeFailure.Some?)
    {
      GreetTurn(hostname);
      exit := FlushTurn();
    }

    /** A pass in the Cmd state: parseCMD, then the Flush. */
    method CmdPass(hostname: string, handshake: Option<string>) returns (exit: Option<Exit>)
      requires conn != null && state == Cmd
      modifies this, conn
      ensures conn == null || conn == old(conn)
      ensures exit.None? ==> conn != null
      ensures exit.Some? ==> exit.value in {NilEnvelopeFault, NilConnFlush} || exit.value.FlushFailed?
      ensures state == Cmd || state == Data
      ensures old(conn.sent) <= old(conn).sent
      ensures exit.Some? && exit.value.FlushFailed? ==> old(conn).closed || old(conn).writeFailure.Some?
      ensures '\n' !in old(conn.inbound) ==> exit == Some(NilConnFlush)
      ensures '\n' in old(conn.inbound) ==>
                var r := React(old(View()), C.FirstLine(old(conn.inbound)), hostname, handshake);
                && (exit == Some(NilEnvelopeFault) <==> r.NilEnvelope?)
                && (r.Reaction? ==> View() == r.view && (r.quits ==> exit == Some(NilConnFlush)))
    {
      var fault := ParseCmd(hostname, handshake);
      if fault {
        return Some(NilEnvelopeFault);
      }
      if '\n' in old(conn.inbound) {
        ReactKeepsState(old(View()), C.FirstLine(old(conn.inbound)), hostname, handshake);
      }
      exit := FlushTurn();
    }

    /** A pass in the Data state: the body, the reply, then the Flush. */
    method DataPass(parseMime: string -> Option<string>) returns (exit: Option<Exit>)
      requires conn != null && state == Data
      modifies this, conn
      ensures conn == old(conn) && state == Data
      ensures exit == Some(EnvelopePanic) <==> C.ReadFrom(old(conn.raw), "").0.SlicePanic?
      ensures exit.Some? ==> exit.value == EnvelopePanic || exit.value.FlushFailed?
      ensures old(conn.sent) <= conn.sent
      ensures exit.Some? && exit.value.FlushFailed? ==> conn.closed || conn.writeFailure.Some?
    {
      var panicked := DataTurn(parseMime);
      if panicked {
        return Some(EnvelopePanic);
      }
      exit := FlushTurn();
    }

    /** One pass of startSession's loop on a live session: the state's
        handler, then the Flush (the Shutdown state returns before it). */
    method Step(hostname: string, handshake: Option<string>, parseMime: string -> Option<string>)
      returns (exit: Option<Exit>)
      requires conn != null
      modifies this, conn
      ensures conn == null || conn == old(conn)
      ensures exit.None? ==> conn != null
      ensures exit != Some(Ended) && exit != Some(OutOfFuel)
      ensures exit == Some(Returned) <==> old(state) == Shutdown
      ensures old(state) == Shutdown ==> View() == old(View()) && old(conn).sent == old(conn.sent)
      ensures old(state) != Shutdown ==> state != Shutdown
      ensures old(conn.sent) <= old(conn).sent
      ensures exit.Some? && exit.value.FlushFailed? ==> old(conn).closed || old(conn).writeFailure.Some?
      ensures old(state) == Greeting ==>
                && state == Cmd
                && (exit.None? ==> old(conn).sent == old(conn.sent) + GreetWire(hostname))
                && (exit.Some? ==> old(conn).sent == old(conn.sent))
      ensures old(state) == Data ==> state == Data
      ensures old(state) == Data ==>
                (exit == Some(EnvelopePanic) <==> C.ReadFrom(old(conn.raw), "").0.SlicePanic?)
    {
      match state {
        case Shutdown =>
          return Some(Returned);
        case Greeting =>
          exit := GreetPass(hostname);
        case Cmd =>
          exit := CmdPass(hostname, handshake);
        case Data =>
          exit := DataPass(parseMime);
      }
    }

    /** startSession with a budget of turns: the loop runs while the session
        holds a connection, and every way out of it is an Exit. */
    method StartSession(hostname: string, handshake: Option<string>, parseMime: string -> Option<string>, fuel: nat)
      returns (exit: Exit)
      modifies this, conn
      ensures exit == Ended <==> old(conn) == null
      ensures exit == Returned ==> old(state) == Shutdown
      ensures old(conn) != null && old(state) == Shutdown && fuel > 0 ==> exit == Returned
      ensures old(state) != Shutdown ==> state != Shutdown
      ensures old(state) == Data ==> state == Data
      ensures old(conn) != null ==> old(conn.sent) <= old(conn).sent
      ensures old(conn) != null && old(state) == Greeting ==>
                old(conn).sent == old(conn.sent) || old(conn.sent) + GreetWire(hostname) <= old(conn).sent
      ensures exit.FlushFailed? ==> old(conn).closed || old(conn).writeFailure.Some?
    {
      if conn == null {
        return Ended;
      }
      var left := fuel;
      while left > 0
        invariant conn == old(conn)
        invariant left <= fuel
        invariant left == fuel ==> View() == old(View()) && conn.sent == old(conn.sent)
        invariant old(state) == Shutdown ==> left == fuel
        invariant old(state) != Shutdown ==> state != Shutdown
        invariant old(state) == Data ==> state == Data
        invariant old(conn.sent) <= conn.sent
        invariant old(state) == Greeting && left < fuel ==> old(conn.sent) + GreetWire(hostname) <= conn.sent
      {
        var e := Step(hostname, handshake, parseMime);
        if e.Some? {
          return e.value;
        }
        left := left - 1;
      }
      return OutOfFuel;
    }
  }
}
