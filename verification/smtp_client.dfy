/** The earlier SMTP state machine, Client (email_ms/smtp/client.go).  It
    runs the same verbs in the same order as the session, over an older
    connection type whose source is not part of this model: here that
    connection is a script of the lines the peer sends and of the MIME
    verdicts on the bodies it sends, a log of every send call, and the flags
    the client can observe. */
module SmtpClient {
  import opened Outcomes
  import E = EmailModels
  import SmtpEnums
  import SmtpUtils
  import S = SmtpSession

  // The replies of client.go; unlike the session's, the OK reply carries
  // its own CRLF.

  function EhloLine(hostname: string): string { "250 " + hostname + " Hello\r\n" }
  /** messageSize formatted with the line limit of 4096. */
  const SizeLine: string := "250 SIZE 4096\r\n"
  const Pipelining: string := "250 PIPELINING\r\n"
  const AdvertiseTls: string := "250 STARTTLS\r\n"
  const Enhanced: string := "250 ENHANCEDSTATUSCODES\r\n"
  const OkReply: string := "250 2.1.0 OK\r\n"
  const ReceiveData: string := "354 Ready\r\n"
  const ErrNestedEmail: string := "503 NESTEDEMAIL nested MAIL command"
  const ErrTooBig: string := "552 email is too big"
  /** errInvalidEmail, also sent unformatted with its verb still in it. */
  const InvalidTemplate: string := "450 4.7.1 %s"
  function ErrInvalidEmail(message: string): string { "450 4.7.1 " + message }
  const Help: string := "250 HELP"

  /** The recipient guard: more than this many refuses. */
  const MaxRecipients: nat := 10

  /** maxDataSize: 25 MB. */
  const MaxDataSize: nat := 25 * SmtpEnums.MB

  /** What EHLO sends: STARTTLS is advertised here. */
  function EhloReply(hostname: string): seq<string>
  {
    [EhloLine(hostname), SizeLine, Pipelining, AdvertiseTls, Enhanced, Help]
  }

  /** MAIL FROM with its argument, as in the session but with the
      client's replies. */
  function MailReaction(v: S.SessionView, arg: string): (r: S.Reaction)
    ensures r.Reaction? && !r.quits && !r.upgrades && r.view.tls == v.tls && r.view.eSMTP == v.eSMTP
  {
    if v.envelope.Some? then S.Reaction(v, Some([ErrNestedEmail]), false, false)
    else
      var parsed := SmtpUtils.ParseEmailAddress(arg);
      match SmtpUtils.ErrorText(parsed)
      case Some(t) => S.Reaction(v, Some([ErrInvalidEmail(t)]), false, false)
      case None => S.Reaction(v.(envelope := Some(S.Opened(parsed.address))), Some([OkReply]), false, false)
  }

  /** RCPT TO with its argument, under the client's guard of 10. */
  function RcptReaction(v: S.SessionView, arg: string): (r: S.Reaction)
    ensures r.Reaction? ==> !r.quits && !r.upgrades && r.view.tls == v.tls && r.view.eSMTP == v.eSMTP
  {
    if v.envelope.None? then S.NilEnvelope
    else if |v.envelope.value.toList| > MaxRecipients then
      S.Reaction(v, Some([ErrInvalidEmail("too many recipients")]), false, false)
    else
      var parsed := SmtpUtils.ParseEmailAddress(arg);
      match SmtpUtils.ErrorText(parsed)
      case Some(t) => S.Reaction(v, Some([ErrInvalidEmail(t)]), false, false)
      case None =>
        var env := v.envelope.value;
        S.Reaction(v.(envelope := Some(env.(toList := env.toList + [parsed.address]))), Some([OkReply]), false, false)
  }

  /** DATA: the nil envelope outside a transaction, the unformatted
      template without recipients, otherwise the Data state. */
  function DataReaction(v: S.SessionView): (r: S.Reaction)
    ensures r.Reaction? ==> !r.quits && !r.upgrades && r.view.tls == v.tls && r.view.eSMTP == v.eSMTP
  {
    if v.envelope.None? then S.NilEnvelope
    else if |v.envelope.value.toList| == 0 then S.Reaction(v, Some([InvalidTemplate]), false, false)
    else S.Reaction(v.(state := S.Data), Some([ReceiveData]), false, false)
  }

  /** parseCMD after a line was read, once its verb is known; the fields are
      those of the session, and the Reaction's reply is what one send call
      gets. */
  function ReactTo(v: S.SessionView, cmd: Option<S.Command>, line: string, hostname: string, handshake: Option<string>): (r: S.Reaction)
    requires cmd.Some? ==> |line| >= |S.Verb(cmd.value)|
    ensures r.NilEnvelope? ==> v.envelope.None? && (cmd == Some(S.Rcpt) || cmd == Some(S.DataCmd))
    ensures r.Reaction? && r.upgrades ==> cmd == Some(S.StartTls)
    ensures r.Reaction? && r.view.tls != v.tls ==> cmd == Some(S.StartTls) && handshake.None?
    ensures r.Reaction? && r.reply.None? ==> cmd.None? || cmd == Some(S.StartTls)
  {
    match cmd
    case None => S.Reaction(v, None, false, false)
    case Some(Helo) => S.Reaction(v.(envelope := None), Some([S.MessageHelo(hostname)]), false, false)
    case Some(Ehlo) => S.Reaction(v.(eSMTP := true, envelope := None), Some(EhloReply(hostname)), false, false)
    case Some(Help) => S.Reaction(v, Some([OkReply]), false, false)
    case Some(Mail) => MailReaction(v, line[|SmtpEnums.CmdMail|..])
    case Some(Rcpt) => RcptReaction(v, line[|SmtpEnums.CmdRcpt|..])
    case Some(Rset) => S.Reaction(v.(envelope := None), Some([OkReply]), false, false)
    case Some(Quit) => S.Reaction(v, Some([OkReply]), true, false)
    case Some(StartTls) => S.Reaction(v.(tls := v.tls || handshake.None?, envelope := None), None, false, true)
    case Some(DataCmd) => DataReaction(v)
    case Some(Noop) => S.Reaction(v, Some([OkReply]), false, false)
    case Some(Vrfy) => S.Reaction(v, Some([OkReply]), false, false)
  }

  /** parseCMD after a line was read: only RCPT and DATA outside a
      transaction fault, only STARTTLS upgrades or touches the TLS flag, and
      every other recognised command is answered. */
  function React(v: S.SessionView, line: string, hostname: string, handshake: Option<string>): (r: S.Reaction)
    ensures r.NilEnvelope? ==>
              v.envelope.None? && (SmtpEnums.Match(SmtpEnums.CmdRcpt, line) || SmtpEnums.Match(SmtpEnums.CmdData, line))
    ensures r.Reaction? && r.upgrades ==> SmtpEnums.Match(SmtpEnums.CmdStartTls, line)
    ensures r.Reaction? && r.view.tls != v.tls ==> SmtpEnums.Match(SmtpEnums.CmdStartTls, line) && handshake.None?
    ensures r.Reaction? && r.reply.None? ==> S.Classify(line).None? || SmtpEnums.Match(SmtpEnums.CmdStartTls, line)
  {
    S.ClassifyIsMatch(line, S.Rcpt);
    S.ClassifyIsMatch(line, S.DataCmd);
    S.ClassifyIsMatch(line, S.StartTls);
    ReactTo(v, S.Classify(line), line, hostname, handshake)
  }

  /** The older connection, as the client sees it.  Its source is not part
      of this model, so each method states only what the client relies on:
      ReadLine hands out the scripted lines and then fails, send calls are
      logged, flush fails once the connection is closed or when writes
      fail, and the TLS upgrade gives the scripted handshake result. */
  class LegacyConnection {
    var lines: seq<string>
    const readFailure: string
    var bodies: seq<Option<string>>
    /** What the buffered reader holds when a body is about to be read. */
    const buffered: nat
    const handshake: Option<string>
    const writeFailure: Option<string>
    var sendLog: seq<seq<string>>
    var closed: bool
    var tls: bool
    /** The remote address the connection pool keys clients by. */
    const remoteAddr: string
    var deadlines: seq<int>

    constructor (lines: seq<string>, readFailure: string, bodies: seq<Option<string>>, buffered: nat,
                 handshake: Option<string>, writeFailure: Option<string>, remoteAddr: string)
      ensures this.lines == lines && this.readFailure == readFailure && this.bodies == bodies
      ensures this.buffered == buffered && this.handshake == handshake && this.writeFailure == writeFailure
      ensures this.remoteAddr == remoteAddr
      ensures sendLog == [] && !closed && !tls && deadlines == []
    {
      this.lines := lines;
      this.readFailure := readFailure;
      this.bodies := bodies;
      this.buffered := buffered;
      this.handshake := handshake;
      this.writeFailure := writeFailure;
      this.remoteAddr := remoteAddr;
      sendLog := [];
      closed := false;
      tls := false;
      deadlines := [];
    }

    /** setDeadline: the deadline becomes now plus d. */
    method SetDeadline(d: int)
      modifies this
      ensures deadlines == old(deadlines) + [d]
      ensures lines == old(lines) && bodies == old(bodies) && sendLog == old(sendLog)
      ensures closed == old(closed) && tls == old(tls)
    {
      deadlines := deadlines + [d];
    }

    method ReadLine() returns (r: Result<string, string>)
      modifies this
      ensures old(lines) == [] ==> r == Err(readFailure) && lines == []
      ensures old(lines) != [] ==> r == Ok(old(lines)[0]) && lines == old(lines)[1..]
      ensures bodies == old(bodies) && sendLog == old(sendLog) && closed == old(closed) && tls == old(tls)
    {
      if lines == [] {
        return Err(readFailure);
      }
      r := Ok(lines[0]);
      lines := lines[1..];
    }

    /** The body read by enmime straight from the socket: its verdict is
        the next scripted one, and an exhausted script fails with EOF. */
    method ReadBody() returns (err: Option<string>)
      modifies this
      ensures old(bodies) == [] ==> err == Some("EOF") && bodies == []
      ensures old(bodies) != [] ==> err == old(bodies)[0] && bodies == old(bodies)[1..]
      ensures lines == old(lines) && sendLog == old(sendLog) && closed == old(closed) && tls == old(tls)
    {
      if bodies == [] {
        return Some("EOF");
      }
      err := bodies[0];
      bodies := bodies[1..];
    }

    method Send(items: seq<string>)
      modifies this
      ensures sendLog == old(sendLog) + [items]
      ensures lines == old(lines) && bodies == old(bodies) && closed == old(closed) && tls == old(tls)
    {
      sendLog := sendLog + [items];
    }

    method Flush() returns (err: Option<string>)
      ensures closed ==> err.Some?
      ensures !closed ==> err == writeFailure
    {
      if closed {
        return Some("use of closed network connection");
      }
      return writeFailure;
    }

    method Close()
      modifies this
      ensures closed
      ensures lines == old(lines) && bodies == old(bodies) && sendLog == old(sendLog) && tls == old(tls)
    {
      closed := true;
    }

    method UpgradeTls() returns (err: Option<string>)
      modifies this
      ensures err == handshake && tls == (old(tls) || handshake.None?)
      ensures lines == old(lines) && bodies == old(bodies) && sendLog == old(sendLog) && closed == old(closed)
    {
      if handshake.None? {
        tls := true;
      }
      return handshake;
    }
  }

  /** How handle ends: the loop never ran, a failed flush, the nil-envelope
      dereference of RCPT or DATA, or (in this model) the turn budget ran
      out. */
  datatype Exit = Ended | FlushFailed(message: string) | NilEnvelopeFault | OutOfFuel

  /** The recipient bound the guard keeps: it refuses only when more than
      10 are held, so a list reaches 11 and no more. */
  predicate RecipientsWithin(v: S.SessionView)
  {
    v.envelope.Some? ==> |v.envelope.value.toList| <= MaxRecipients + 1
  }

  /** Each command line keeps the bound. */
  lemma ReactKeepsRecipientsWithin(v: S.SessionView, line: string, hostname: string, handshake: Option<string>)
    requires RecipientsWithin(v)
    ensures var r := React(v, line, hostname, handshake);
            r.Reaction? ==> RecipientsWithin(r.view)
  {
    ReactToKeepsRecipientsWithin(v, S.Classify(line), line, hostname, handshake);
  }

  /** Each case of the switch keeps the bound: only RCPT adds a recipient,
      and only below the guard. */
  lemma ReactToKeepsRecipientsWithin(v: S.SessionView, cmd: Option<S.Command>, line: string, hostname: string, handshake: Option<string>)
    requires cmd.Some? ==> |line| >= |S.Verb(cmd.value)|
    requires RecipientsWithin(v)
    ensures var r := ReactTo(v, cmd, line, hostname, handshake);
            r.Reaction? ==> RecipientsWithin(r.view)
  {
    match cmd
    case None =>
    case Some(c) =>
  }

  class Client {
    var conn: LegacyConnection?
    var envelope: Option<E.UnencryptedEmail>
    var state: S.State
    var tls: bool
    var eSMTP: bool

    function View(): S.SessionView
      reads this
    {
      S.SessionView(state, envelope, tls, eSMTP)
    }

    /** NewClient: a fresh client in the Greeting state. */
    constructor (conn: LegacyConnection?)
      ensures this.conn == conn
      ensures state == S.Greeting && envelope.None? && !tls && !eSMTP
    {
      this.conn := conn;
      envelope := None;
      state := S.Greeting;
      tls := false;
      eSMTP := false;
    }

    predicate IsAlive()
      reads this
    {
      conn != null
    }

    predicate InTransaction()
      reads this
    {
      envelope.Some?
    }

    method ResetTransaction()
      modifies this
      ensures View() == old(View()).(envelope := None) && conn == old(conn)
    {
      envelope := None;
    }

    /** close: closes the connection and keeps the reference. */
    method Close()
      requires conn != null
      modifies conn
      ensures conn.closed
      ensures conn.lines == old(conn.lines) && conn.bodies == old(conn.bodies)
      ensures conn.sendLog == old(conn.sendLog) && conn.tls == old(conn.tls)
    {
      conn.Close();
    }

    /** parseCMD: reads a line; a read error closes the connection;
        otherwise the line is handled as React says. */
    method ParseCmd(hostname: string) returns (fault: bool)
      requires conn != null
      modifies this, conn
      ensures conn == old(conn)
      ensures old(conn.lines) == [] ==>
                !fault && conn.closed && View() == old(View()) && conn.sendLog == old(conn.sendLog)
      ensures old(conn.lines) != [] ==>
                var r := React(old(View()), old(conn.lines)[0], hostname, conn.handshake);
                && conn.lines == old(conn.lines)[1..]
                && (fault <==> r.NilEnvelope?)
                && (fault ==> View() == old(View()) && conn.sendLog == old(conn.sendLog))
                && (!fault ==>
                      && View() == r.view
                      && conn.sendLog == old(conn.sendLog) + (if r.reply.Some? then [r.reply.value] else [])
                      && conn.closed == (old(conn.closed) || r.quits)
                      && conn.tls == (old(conn.tls) || (r.upgrades && conn.handshake.None?)))
      ensures conn.bodies == old(conn.bodies)
      ensures old(conn.closed) ==> conn.closed
    {
      var read := conn.ReadLine();
      if read.Err? {
        Close();
        return false;
      }
      fault := Dispatch(S.Classify(read.value), read.value, hostname);
    }

    /** The switch of parseCMD over a line that was read. */
    method Dispatch(cmd: Option<S.Command>, line: string, hostname: string) returns (fault: bool)
      requires conn != null
      requires cmd.Some? ==> |line| >= |S.Verb(cmd.value)|
      modifies this, conn
      ensures conn == old(conn)
      ensures var r := ReactTo(old(View()), cmd, line, hostname, conn.handshake);
              && (fault <==> r.NilEnvelope?)
              && (fault ==> View() == old(View()) && conn.sendLog == old(conn.sendLog))
              && (!fault ==>
                    && View() == r.view
                    && conn.sendLog == old(conn.sendLog) + (if r.reply.Some? then [r.reply.value] else [])
                    && conn.closed == (old(conn.closed) || r.quits)
                    && conn.tls == (old(conn.tls) || (r.upgrades && conn.handshake.None?)))
      ensures conn.lines == old(conn.lines) && conn.bodies == old(conn.bodies)
      ensures old(conn.closed) ==> conn.closed
    {
      fault := false;
      match cmd
      case None =>
      case Some(Helo) =>
        ResetTransaction();
        conn.Send([S.MessageHelo(hostname)]);
      case Some(Ehlo) =>
        eSMTP := true;
        ResetTransaction();
        conn.Send(EhloReply(hostname));
      case Some(Help) =>
        conn.Send([OkReply]);
      case Some(Mail) =>
        OnMail(line);
      case Some(Rcpt) =>
        fault := OnRcpt(line);
      case Some(Rset) =>
        ResetTransaction();
        conn.Send([OkReply]);
      case Some(Quit) =>
        conn.Send([OkReply]);
        Close();
      case Some(StartTls) =>
        var err := conn.UpgradeTls();
        if err.None? {
          tls := true;
        }
        ResetTransaction();
      case Some(DataCmd) =>
        fault := OnData();
      case Some(Noop) =>
        conn.Send([OkReply]);
      case Some(Vrfy) =>
        conn.Send([OkReply]);
    }

    /** The MAIL FROM branch. */
    method OnMail(line: string)
      requires conn != null && |line| >= |SmtpEnums.CmdMail|
      modifies this, conn
      ensures conn == old(conn)
      ensures var r := ReactTo(old(View()), Some(S.Mail), line, "", None);
              && r.Reaction? && View() == r.view && conn.sendLog == old(conn.sendLog) + [r.reply.value]
      ensures conn.lines == old(conn.lines) && conn.bodies == old(conn.bodies)
      ensures conn.closed == old(conn.closed) && conn.tls == old(conn.tls)
    {
      if InTransaction() {
        conn.Send([ErrNestedEmail]);
        return;
      }
      var parsed := SmtpUtils.ParseEmailAddress(line[|SmtpEnums.CmdMail|..]);
      var t := SmtpUtils.ErrorText(parsed);
      if t.Some? {
        conn.Send([ErrInvalidEmail(t.value)]);
        return;
      }
      envelope := Some(S.Opened(parsed.address));
      conn.Send([OkReply]);
    }

    /** The RCPT TO branch; it reads the envelope's list without checking
        that an envelope is open. */
    method OnRcpt(line: string) returns (fault: bool)
      requires conn != null && |line| >= |SmtpEnums.CmdRcpt|
      modifies this, conn
      ensures conn == old(conn)
      ensures var r := ReactTo(old(View()), Some(S.Rcpt), line, "", None);
              && (fault <==> r.NilEnvelope?)
              && (!fault ==> View() == r.view && conn.sendLog == old(conn.sendLog) + [r.reply.value])
      ensures fault ==> View() == old(View()) && conn.sendLog == old(conn.sendLog)
      ensures conn.lines == old(conn.lines) && conn.bodies == old(conn.bodies)
      ensures conn.closed == old(conn.closed) && conn.tls == old(conn.tls)
    {
      if envelope.None? {
        return true;
      }
      if |envelope.value.toList| > MaxRecipients {
        conn.Send([ErrInvalidEmail("too many recipients")]);
        return false;
      }
      var parsed := SmtpUtils.ParseEmailAddress(line[|SmtpEnums.CmdRcpt|..]);
      var t := SmtpUtils.ErrorText(parsed);
      if t.Some? {
        conn.Send([ErrInvalidEmail(t.value)]);
        return false;
      }
      var env := envelope.value;
      envelope := Some(env.(toList := env.toList + [parsed.address]));
      conn.Send([OkReply]);
      return false;
    }

    /** The DATA branch, without a nil check either. */
    method OnData() returns (fault: bool)
      requires conn != null
      modifies this, conn
      ensures conn == old(conn)
      ensures var r := ReactTo(old(View()), Some(S.DataCmd), SmtpEnums.CmdData, "", None);
              && (fault <==> r.NilEnvelope?)
              && (!fault ==> View() == r.view && conn.sendLog == old(conn.sendLog) + [r.reply.value])
      ensures fault ==> View() == old(View()) && conn.sendLog == old(conn.sendLog)
      ensures conn.lines == old(conn.lines) && conn.bodies == old(conn.bodies)
      ensures conn.closed == old(conn.closed) && conn.tls == old(conn.tls)
    {
      if envelope.None? {
        return true;
      }
      if |envelope.value.toList| == 0 {
        conn.Send([InvalidTemplate]);
        return false;
      }
      conn.Send([ReceiveData]);
      state := S.Data;
      return false;
    }

    /** The clientStateData turn: errTooBig is sent when more than 25 MB is
        buffered, but the body is read anyway; a refused body sends the
        unformatted errInvalidEmail; the envelope is dropped either way and
        the state stays Data. */
    method DataTurn()
      requires conn != null
      modifies this, conn
      ensures conn == old(conn)
      ensures View() == old(View()).(envelope := None)
      ensures var tooBig := if conn.buffered > MaxDataSize then [[ErrTooBig]] else [];
              var verdict := if old(conn.bodies) == [] then Some("EOF") else old(conn.bodies)[0];
              conn.sendLog == old(conn.sendLog) + tooBig + (if verdict.Some? then [[InvalidTemplate]] else [])
      ensures conn.bodies == (if old(conn.bodies) == [] then [] else old(conn.bodies)[1..])
      ensures conn.lines == old(conn.lines) && conn.closed == old(conn.closed) && conn.tls == old(conn.tls)
    {
      if conn.buffered > MaxDataSize {
        conn.Send([ErrTooBig]);
      }
      var err := conn.ReadBody();
      if err.Some? {
        conn.Send([InvalidTemplate]);
        ResetTransaction();
        return;
      }
      ResetTransaction();
    }

    /** One pass of handle's loop: the state's handler, then the flush. */
    method Step(hostname: string) returns (exit: Option<Exit>)
      requires conn != null
      modifies this, conn
      ensures conn == old(conn)
      ensures exit != Some(Ended) && exit != Some(OutOfFuel)
      ensures old(state) != S.Shutdown ==> state != S.Shutdown
      ensures old(state) == S.Data ==> state == S.Data
      ensures old(state) == S.Greeting ==>
                state == S.Cmd && conn.sendLog == old(conn.sendLog) + [[S.MessageGreet(hostname)]]
      ensures old(state) == S.Shutdown ==> conn.closed && exit.Some? && exit.value.FlushFailed?
      ensures old(conn.sendLog) <= conn.sendLog
      ensures exit.Some? && exit.value.FlushFailed? ==> conn.closed || conn.writeFailure.Some?
      ensures exit.None? ==> !conn.closed && conn.writeFailure.None?
      ensures RecipientsWithin(old(View())) ==> RecipientsWithin(View())
    {
      match state {
        case Greeting =>
          conn.Send([S.MessageGreet(hostname)]);
          state := S.Cmd;
        case Cmd =>
          ghost var v := View();
          ghost var ls := conn.lines;
          var fault := ParseCmd(hostname);
          if fault {
            return Some(NilEnvelopeFault);
          }
          if ls != [] {
            if RecipientsWithin(v) {
              ReactKeepsRecipientsWithin(v, ls[0], hostname, conn.handshake);
            }
            ClientKeepsState(v, ls[0], hostname, conn.handshake);
          }
        case Data =>
          DataTurn();
        case Shutdown =>
          Close();
      }
      var err := conn.Flush();
      if err.Some? {
        return Some(FlushFailed(err.value));
      }
      return None;
    }

    /** handle with a budget of turns.  close never clears the connection,
        so once the loop has started only a failed flush (or a fault) ends
        it. */
    method Handle(hostname: string, fuel: nat) returns (exit: Exit)
      requires RecipientsWithin(View())
      modifies this, conn
      ensures conn == old(conn)
      ensures exit == Ended <==> old(conn) == null
      ensures old(state) != S.Shutdown ==> state != S.Shutdown
      ensures old(state) == S.Data ==> state == S.Data
      ensures old(conn) != null ==> old(conn.sendLog) <= conn.sendLog
      ensures old(conn) != null && old(state) == S.Greeting && fuel > 0 ==>
                old(conn.sendLog) + [[S.MessageGreet(hostname)]] <= conn.sendLog
      ensures exit.FlushFailed? ==> conn.closed || conn.writeFailure.Some?
      ensures RecipientsWithin(View())
    {
      if conn == null {
        return Ended;
      }
      var left := fuel;
      while left > 0
        invariant conn == old(conn)
        invariant left <= fuel
        invariant left == fuel ==> View() == old(View()) && conn.sendLog == old(conn.sendLog)
        invariant old(state) != S.Shutdown ==> state != S.Shutdown
        invariant old(state) == S.Data ==> state == S.Data
        invariant old(conn.sendLog) <= conn.sendLog
        invariant old(state) == S.Greeting && left < fuel ==>
                    old(conn.sendLog) + [[S.MessageGreet(hostname)]] <= conn.sendLog
        invariant RecipientsWithin(View())
      {
        var e := Step(hostname);
        if e.Some? {
          return e.value;
        }
        left := left - 1;
      }
      return OutOfFuel;
    }
  }

  /** A command line changes the client's state only from Cmd to Data, on
      an accepted DATA. */
  lemma ClientKeepsState(v: S.SessionView, line: string, hostname: string, handshake: Option<string>)
    ensures var r := React(v, line, hostname, handshake);
            r.Reaction? ==> r.view.state == v.state || (r.view.state == S.Data && S.Classify(line) == Some(S.DataCmd))
  {
  }
}
