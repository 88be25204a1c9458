# letter.me mail front end and domain validators in Dafny

This project models the core of letter.me, an end-to-end encrypted mail
service written in Go. The model covers these parts:

- **The SMTP front end** (`email_ms/smtp`):
  - the command matcher and the address parser;
  - the buffered connection adapter: line reads, envelope reads, the output buffer and flushing;
  - the session state machine, and the older `Client` state machine;
  - the session pool and the connection pool, with their semaphore, WaitGroup and registry;
  - the server's configuration check, accept loop and shutdown;
  - the envelope middleware pipeline.
- **The controller middlewares** (`email_ms/controller`): they check that recipients exist, check that inboxes have room, and encrypt one copy of the envelope per recipient.
- **The domain validators and routers** (`domain`):
  - addresses and database ids;
  - e-mails, e-mail requests and attachments, in both the current and the legacy package;
  - the RSA-OAEP block chunking;
  - the two cryptographic routers;
  - the authentication settings.
- **The account service**: the request validators and the two message handlers.
- **The persistence layer**: the Mongo settings check, and the conversions between driver values and domain values.

Modelling conventions:

- **Panics.** A Go nil dereference, slice-bounds panic or negative WaitGroup counter is a result value of its own (`NilEnvelope`, `SlicePanic`, `NegativeCounter`, …). None of them is a precondition.
- **Outside dependencies.** Account lookups, block encryption, MIME parsing, URL parsing and JSON are function-typed parameters. Sockets are scripted input.
- **Mutable objects.** Objects the source updates in place are classes: `ConnectionAdapter`, `Session`, `Client`, `SessionPool`, `ConnectionPool`, `Server` and `Pipeline`. Their methods are proved against the pure specification functions `React`, `ReadFrom`, `Frame`, `Scanned`, `Encrypted` and `Run`.

## Model

| member | source | states |
|---|---|---|
| SmtpEnums.Match | email_ms/smtp/enums.go:47-54 | A line matches a command exactly when the command's bytes are a prefix of the line; a shorter line never matches |
| SmtpEnums.TrailingArgumentsIgnored | email_ms/smtp/enums.go:47-54 | Whatever follows the verb on the line does not affect the match |
| SmtpEnums.MatchIsCaseSensitive | email_ms/smtp/enums.go:47-54 | Lower-case verbs ("helo …", "quit") are not recognised: the comparison is byte-exact |
| SmtpEnums.CommandsArePrefixFree | email_ms/smtp/enums.go:33-45 | No declared command is a prefix of another |
| SmtpEnums.AtMostOneMatch | email_ms/smtp/enums.go:33-54 | A line matches at most one declared command, so the order of the switch cases never matters |
| SmtpUtils.ParseEmailAddress | email_ms/smtp/utils.go:12-21 | Size error exactly when the argument is shorter than 4 or longer than 253 bytes; otherwise the address is the argument without its first and last byte, and its error is exactly the address check's verdict |
| SmtpUtils.ErrorText | email_ms/smtp/utils.go:12-21 | No error exactly when the argument parsed and the address validated; the size error carries its fixed text |
| SmtpUtils.ShortArgumentsFailValidation | email_ms/smtp/utils.go:13-20 | Arguments of 4 or 5 bytes pass the size guard but leave a 2- or 3-byte address, which the address check refuses for its length |
| SmtpUtils.BracketsNotChecked | email_ms/smtp/utils.go:18-19 | The enclosing bytes are dropped whatever they are: "xalysson@letter.mey" yields "alysson@letter.me" |
| SmtpConnection.FrameAppend | email_ms/smtp/connection.go:146-169 | The buffered text of a run of supported arguments is the concatenation of each one's text, each followed by CRLF |
| SmtpConnection.FrameStopsAtUnsupported | email_ms/smtp/connection.go:162-164 | An argument of an unsupported type ends the write: neither it nor anything after it reaches the buffer |
| SmtpConnection.TrimRightCr | email_ms/smtp/connection.go:87 | The result is a prefix of the input with no trailing CR, and only CRs were removed |
| SmtpConnection.ReadRaw | email_ms/smtp/connection.go:125-133 | A successful read returns at most the window's bytes, and those bytes followed by the rest are exactly what the socket delivers |
| SmtpConnection.EnvelopeIsDeliveredPrefix | email_ms/smtp/connection.go:112-143 | An accepted envelope carries the end-of-data marker, fits in 25 MB, extends what was read before, and is a prefix of the socket's bytes; the rest stays unread |
| SmtpConnection.Window | email_ms/smtp/connection.go:120-123 | A read window is at most one MB and never reaches past the 25 MB buffer; it is one MB unless that would overflow, in which case it reaches exactly to the end, and it is empty only when the buffer is full |
| SmtpConnection.ReadFrom | email_ms/smtp/connection.go:112-143 | An envelope is returned only when it ends with the ".\r" marker, is at most 25 MB long, and extends the bytes gathered so far |
| SmtpConnection.ZerosOverflow | email_ms/smtp/connection.go:119-141 | A stream of zero bytes that does not fit in the buffer ends in the too-big error, whatever size has been reached |
| SmtpConnection.TooBigEnvelope | email_ms/smtp/connection_test.go:212-217 | An envelope one byte over 25 MB is refused as too big |
| SmtpConnection.SmallEnvelope | email_ms/smtp/connection_test.go:218-223 | "hello world\r\n.\r\n" delivered in one read is returned whole |
| SmtpConnection.MarkerIsTwoBytes | email_ms/smtp/connection.go:135-137 | The marker test looks only at the two bytes before the last one: "ab.\rX" is accepted as an envelope |
| SmtpConnection.ShortReadPanics | email_ms/smtp/connection.go:133-135 | A first read of fewer than three bytes makes the unsigned `size-3` wrap and the slice expression panic |
| SmtpConnection.ConnectionAdapter.constructor | email_ms/smtp/connection.go:31-48 | A fresh adapter over a socket: empty output, nothing sent, no TLS, not closed, no deadline set |
| SmtpConnection.ConnectionAdapter.SetDeadline | email_ms/smtp/connection.go:181-183 | Records one deadline of the given duration and changes nothing else |
| SmtpConnection.ConnectionAdapter.ResetTimeout | email_ms/smtp/connection.go:74-79 | Renews the deadline unless the context is done, and changes nothing else |
| SmtpConnection.ConnectionAdapter.UpgradeTLS | email_ms/smtp/connection.go:60-72 | Returns the handshake's error; the connection is encrypted afterwards exactly when it was before or the handshake succeeded; the deadline is renewed |
| SmtpConnection.ConnectionAdapter.ReadBytes | email_ms/smtp/connection.go:91-98 | Succeeds exactly when the delimiter is in the input; it then returns the bytes before the first delimiter, consumes them with the delimiter and renews the deadline; otherwise it returns the reader's error and consumes the input |
| SmtpConnection.ConnectionAdapter.ReadLine | email_ms/smtp/connection.go:82-88 | Succeeds exactly when a newline is buffered; the line is the text before the first newline with its trailing CRs removed, and the rest of the input stays for the next read |
| SmtpConnection.ConnectionAdapter.ReadEnvelope | email_ms/smtp/connection.go:112-143 | Its result and the unread socket bytes are those of the reference reader `ReadFrom`; the connection is closed exactly on a read error other than end of input |
| SmtpConnection.ConnectionAdapter.AddBuffer | email_ms/smtp/connection.go:146-169 | The output buffer is reset, then holds exactly the framed arguments; nothing else changes |
| SmtpConnection.ConnectionAdapter.Flush | email_ms/smtp/connection.go:172-178 | An empty buffer is a no-op; otherwise the deadline is renewed, and the buffer is sent and emptied, or the write's error is returned with nothing sent |
| SmtpConnection.ConnectionAdapter.Close | email_ms/smtp/connection.go:191-193 | Marks the socket closed and changes nothing else |
| SmtpConnection.NewConnection | email_ms/smtp/connection.go:41-57 | Fails, returning the handshake's error, exactly when TLS was asked for and the handshake fails; otherwise a fresh adapter with the socket's input, one deadline set (two with TLS) and the TLS flag as asked |
| SmtpConnection.AddBufferResetsOutput | email_ms/smtp/connection_test.go:296-322 | Buffering "hello" and "world" leaves "hello\r\nworld\r\n" |
| SmtpConnection.ReadLineKeepsTheRest | email_ms/smtp/connection_test.go:124-161 | Reading a line from "test lalala\r\nsa6d4as\n6d54a32" yields "test lalala" and leaves the rest unread |
| SmtpConnection.LineTest | email_ms/smtp/connection_test.go:131-147 | The first line of that input and what follows it |
| SmtpConnection.ReadBytesStopsAtDelimiter | email_ms/smtp/connection_test.go:170-185 | Reading up to a delimiter yields only the bytes before its first occurrence |
| SmtpPipeline.Chain | email_ms/smtp/pipeline.go:36-54 | The handler that chains the middlewares from a position on only refers to middlewares that exist |
| SmtpPipeline.Run | email_ms/smtp/pipeline.go:12-33 | Only a chain that ends in emptyMiddleware can complete, and only one that ends in a nil slot can call nil |
| SmtpPipeline.ChainRunsInOrder | email_ms/smtp/pipeline.go:12-33 | Running the chain from position k is running the middlewares from k in their configured order, each on what the previous one left, until one stops |
| SmtpPipeline.StopSkipsTheRest | email_ms/smtp/pipeline_test.go:81-129 | A middleware returning an error ends the run with that error; the later middlewares do not run and the earlier writes stay |
| SmtpPipeline.Built | email_ms/smtp/pipeline.go:43-53 | The slice AddMiddlewares leaves for n middlewares has 2n-1 slots, each referring only to existing middlewares |
| SmtpPipeline.Slot | email_ms/smtp/pipeline.go:43-53 | Each slot of that slice refers only to existing middlewares |
| SmtpPipeline.StartOf | email_ms/smtp/pipeline.go:57-66 | Start accepts exactly when the chain completed and rejects exactly when a middleware failed; the rejection wraps the middleware's error so that `errors.Is` still finds it |
| SmtpPipeline.Pipeline.constructor | email_ms/smtp/pipeline.go:12-23 | An empty pipeline |
| SmtpPipeline.Pipeline.AddMiddlewares | email_ms/smtp/pipeline.go:36-54 | An empty list leaves the pipeline unchanged; otherwise the handler slice is exactly the slice `Built` describes, as the loop writes it |
| SmtpPipeline.Pipeline.AddMiddlewaresChained | email_ms/smtp/pipeline.go:36-54 | With the loop reading the handler it appended last, the last handler is the whole chain of the configured middlewares |
| SmtpPipeline.Pipeline.Start | email_ms/smtp/pipeline.go:57-66 | An empty handler slice is an index-out-of-range panic; otherwise the outcome is the last handler run on a fresh pipeline with no recipients, mapped through `StartOf` |
| SmtpPipeline.StartHandlerOfBuilt | email_ms/smtp/pipeline.go:43-53 | The handler Start runs is the whole chain for one or two middlewares, and the first middleware around a nil handler for three or more |
| SmtpPipeline.AtMostTwoRunInOrder | email_ms/smtp/pipeline_test.go:20-80 | With one or two middlewares the pipeline as written runs them in order |
| SmtpPipeline.ThirdMiddlewareCutsTheChain | email_ms/smtp/pipeline.go:49-53 | With three or more middlewares only the first one runs: either it fails, or its call to the next handler is a call on nil |
| SmtpPipeline.ChainedRunsAll | email_ms/smtp/pipeline.go:36-54 | With the corrected loop every configured middleware runs, in order |
| SmtpSessionPool.SessionPool.constructor | email_ms/smtp/session_pool.go:38-47 | An empty pool: no token held, nothing in flight, no session registered |
| SmtpSessionPool.SessionPool.AddSession | email_ms/smtp/session_pool.go:50-65 | Takes a token and counts one session in flight, keeping the two equal; registers a fresh session in the greeting state over a new plain connection under the given id, which no registered session holds (a new UUID), so the registry grows by exactly that one entry |
| SmtpSessionPool.SessionPool.CloseSession | email_ms/smtp/session_pool.go:68-73 | Closes the session and forgets its id, then releases its token and counts it out of flight; a session without a connection faults first; a zero counter panics after the id is forgotten |
| SmtpSessionPool.SessionPool.Shutdown | email_ms/smtp/session_pool.go:77-97 | Every registered connection gets the ten-second deadline, and nothing is sent or closed; a session without a connection faults; the returned channel is already signalled exactly when nothing is in flight |
| SmtpSessionPool.GiveGrace | email_ms/smtp/session_pool.go:79-88 | The walk over the registry: it faults exactly when some entry has no connection; otherwise every connection gets the grace deadline, in whatever order the map yields them |
| SmtpConnectionPool.ConnectionPool.constructor | email_ms/smtp/connection_pool.go:25-34 | An empty pool |
| SmtpConnectionPool.ConnectionPool.AddConnection | email_ms/smtp/connection_pool.go:47-53 | Takes a token, counts the client in flight and registers a fresh client under its remote address, replacing any client already there |
| SmtpConnectionPool.ConnectionPool.RemoveClient | email_ms/smtp/connection_pool.go:55-60 | Closes the client and forgets its address, then releases its token; a client without a connection faults; a zero counter panics |
| SmtpConnectionPool.ConnectionPool.HandleConnection | email_ms/smtp/connection_pool.go:36-45 | When the client returns, the counts and tokens are back where they were, the address is no longer registered and the connection is closed. When the client dereferences its nil envelope (RCPT or DATA before MAIL), the panic skips removeClient: the token stays held, the client stays counted in flight and registered under its address. The greeting was sent first whenever the client ran |
| SmtpConnectionPool.ConnectionPool.Shutdown | email_ms/smtp/connection_pool.go:62-80 | Every registered connection gets the one-second deadline; a client without a connection faults; the channel is already signalled exactly when nothing is in flight |
| SmtpConnectionPool.GiveGrace | email_ms/smtp/connection_pool.go:65-73 | The walk over the registry: it faults exactly when some entry has no connection; otherwise every connection gets the grace deadline |
| SmtpServer.Validate | email_ms/smtp/server.go:37-54 | Accepts exactly when the client limit is positive, the timeout is non-zero, the private key is set and the hostname is not empty |
| SmtpServer.ValidateReportsFirstFailure | email_ms/smtp/server.go:37-54 | The error returned is the first failing check, in the order written |
| SmtpServer.ValidateStopsAtFirst | email_ms/smtp/server.go:38-40 | A configuration failing all four checks reports only the client limit |
| SmtpServer.PoolConfigOf | email_ms/smtp/server.go:57-75 | The pool gets the configuration's capacity and timeout, and TLS settings with the hostname as server name, optional client certificates and the private key |
| SmtpServer.ValidConfigGivesUsablePool | email_ms/smtp/server.go:37-75 | A configuration that validates yields a pool with positive capacity, a non-zero timeout and a named TLS server |
| SmtpServer.Until | email_ms/smtp/server.go:95-103 | The position of the first permanent accept error: every earlier event keeps the loop going |
| SmtpServer.FailuresHandNothing | email_ms/smtp/server.go:104-105 | A temporary accept error is only logged: the sockets handed to the pool are those of the other events |
| SmtpServer.Server.constructor | email_ms/smtp/server.go:57-75 | A server holding the configuration and an empty session pool built from it, not yet listening |
| SmtpServer.Server.Listen | email_ms/smtp/server.go:87-109 | A listen error is returned with nothing else done; otherwise the server is listening and, up to the first permanent error, every accepted socket is handed on in order and every temporary error logged in order; the loop stops exactly when such an error occurs |
| SmtpServer.Server.Record | email_ms/smtp/server.go:104-107 | One accept event: an accepted socket is handed on, a temporary error is logged |
| SmtpServer.Server.Shutdown | email_ms/smtp/server.go:113-118 | Without a listener it does nothing; otherwise it closes the listener and waits on the pool: it returns at once exactly when nothing is in flight, and it blocks otherwise |
| SmtpSession.Classify | email_ms/smtp/session.go:58-79 | The command found matches the line; when none is found, no declared command matches |
| SmtpSession.React | email_ms/smtp/session.go:185-273 | Only RCPT or DATA outside a transaction faults; only STARTTLS upgrades or changes the TLS flag, and the flag only turns on when the handshake succeeds; every recognised command other than STARTTLS is answered |
| SmtpSession.ReactTo | email_ms/smtp/session.go:194-271 | The same, stated for the command the switch selected |
| SmtpSession.ClassifyIsMatch | email_ms/smtp/session.go:194-271 | The switch selects command c exactly when c's verb matches the line |
| SmtpSession.MailReaction | email_ms/smtp/session.go:212-228 | MAIL always gets a reply, never quits or upgrades, and leaves TLS and extended mode as they were |
| SmtpSession.RcptReaction | email_ms/smtp/session.go:229-244 | RCPT, when it does not fault, never quits or upgrades and leaves TLS and extended mode as they were |
| SmtpSession.DataReaction | email_ms/smtp/session.go:260-266 | DATA, when it does not fault, never quits or upgrades and leaves TLS and extended mode as they were |
| SmtpSession.ReactKeepsState | email_ms/smtp/session.go:194-271 | A command leaves the state unchanged, except that DATA moves it to the data state |
| SmtpSession.UnmatchedLineIgnored | email_ms/smtp/session.go:194-271 | A line that matches no command changes nothing and gets no reply |
| SmtpSession.LowerCaseIgnored | email_ms/smtp/session.go:194-271 | A line starting with a lower-case letter changes nothing and gets no reply |
| SmtpSession.Bracketed | email_ms/smtp/session.go:278-287 | The address an argument carries is the argument without its first and last byte |
| SmtpSession.ParseAgreesWithBracketed | email_ms/smtp/session.go:278-287 | parseEmail succeeds exactly when the utility parser reports no error, and both yield the same address |
| SmtpSession.InvalidEmailReply | email_ms/smtp/session.go:44-46 | The invalid-address reply is a single 450 4.7.1 line |
| SmtpSession.NestedMailRefused | email_ms/smtp/session.go:213-216 | MAIL inside a transaction gets the nested-mail error and changes nothing |
| SmtpSession.MailOpensEnvelope | email_ms/smtp/session.go:212-228 | MAIL outside a transaction opens an envelope from the parsed sender and replies OK; a bad address gets the invalid-address reply and changes nothing |
| SmtpSession.RcptOutsideTransactionFaults | email_ms/smtp/session.go:229-234 | RCPT without an open envelope dereferences nil |
| SmtpSession.RcptAppendsRecipient | email_ms/smtp/session.go:229-244 | RCPT refuses once more than 100 recipients are listed; otherwise it appends the parsed recipient and replies OK, or leaves the list unchanged and sends the invalid-address reply |
| SmtpSession.DataNeedsRecipients | email_ms/smtp/session.go:260-266 | DATA faults exactly when no envelope is open; with no recipients it refuses; otherwise it replies 354 and enters the data state |
| SmtpSession.OnlyQuitCloses | email_ms/smtp/session.go:248-250 | A command closes the session exactly when it is QUIT, which replies OK and changes nothing else |
| SmtpSession.ReactToQuits | email_ms/smtp/session.go:248-250 | The dispatcher quits exactly on the QUIT command |
| SmtpSession.StartTlsOutcome | email_ms/smtp/session.go:251-259 | STARTTLS sends no reply, ends the transaction, and turns TLS on exactly when it was already on or the handshake succeeds |
| SmtpSession.TransactionResets | email_ms/smtp/session.go:196-271 | HELO, EHLO, RSET and STARTTLS end the transaction and keep the state; HELP, NOOP, VRFY and QUIT reply OK and change nothing |
| SmtpSession.ExtendedOnlyByEhlo | email_ms/smtp/session.go:199-201 | Extended mode is on after a command exactly when it was before or the command was EHLO |
| SmtpSession.ReactKeepsRecipientsWithin | email_ms/smtp/session.go:230-234 | No command takes the recipient list past 101 entries |
| SmtpSession.ReactToKeepsRecipientsWithin | email_ms/smtp/session.go:230-234 | The same bound, for the dispatcher |
| SmtpSession.RunKeepsRecipientsWithin | email_ms/smtp/session.go:138-139 | However many command lines are processed, the recipient list never exceeds 101 entries |
| SmtpSession.HundredAndFirstRecipient | email_ms/smtp/session.go:230-244 | With exactly 100 recipients, one more valid RCPT is accepted, giving 101 |
| SmtpSession.EhloWire | email_ms/smtp/session.go:199-209 | The bytes EHLO writes: the hello, size, pipelining and enhanced-status lines each already end in CRLF and get a second one, so each is followed by an empty line; the help line gets its single CRLF |
| SmtpSession.Session.constructor | email_ms/smtp/session.go:108-115 | A new session in the greeting state with no envelope, no TLS and no extended mode |
| SmtpSession.Session.ResetTransaction | email_ms/smtp/session.go:175-177 | Drops the envelope and changes nothing else |
| SmtpSession.Session.Close | email_ms/smtp/session.go:118-122 | Closes the connection and forgets it; a session without a connection faults |
| SmtpSession.Session.ParseCmd | email_ms/smtp/session.go:185-273 | When no line can be read, the session is closed. Otherwise the first line is consumed, and the new session state, the buffered reply, closing and the TLS upgrade are exactly those the reference reaction `React` gives for it; the call faults exactly when React does |
| SmtpSession.Session.Dispatch | email_ms/smtp/session.go:194-271 | The same, for an already classified line |
| SmtpSession.Session.OnQuit | email_ms/smtp/session.go:248-250 | Buffers OK, closes the connection and forgets it |
| SmtpSession.Session.OnStartTls | email_ms/smtp/session.go:251-259 | Upgrades the connection and ends the transaction; the TLS flag follows the handshake |
| SmtpSession.Session.OnReply | email_ms/smtp/session.go:196-271 | HELO, EHLO, HELP, RSET, NOOP and VRFY buffer the reply React gives and take its new state |
| SmtpSession.Session.OnMail | email_ms/smtp/session.go:212-228 | MAIL takes the state and reply React gives, and never faults |
| SmtpSession.Session.OnRcpt | email_ms/smtp/session.go:229-244 | RCPT takes the state and reply React gives; it faults exactly when React does |
| SmtpSession.Session.OnData | email_ms/smtp/session.go:260-266 | DATA takes the state and reply React gives; it faults exactly when React does |
| SmtpSession.Session.ReadData | email_ms/smtp/session.go:161-171 | Reads the envelope as the reference reader does; a refused envelope buffers the invalid-address reply and ends the transaction; otherwise nothing is buffered |
| SmtpSession.Session.GreetTurn | email_ms/smtp/session.go:135-137 | Buffers the 220 greeting and moves to the command state |
| SmtpSession.Session.DataTurn | email_ms/smtp/session.go:140-146 | A refused envelope gets the invalid-address reply and an accepted one gets OK; either ends the transaction; a short read panics; the state stays Data |
| SmtpSession.Session.FlushTurn | email_ms/smtp/session.go:152-155 | Flushing a session whose connection was dropped is a nil-interface call; otherwise the buffered reply is sent, or the write error ends the loop with nothing sent |
| SmtpSession.Session.GreetPass | email_ms/smtp/session.go:135-137 | One greeting pass sends exactly the greeting line, or nothing if the flush fails |
| SmtpSession.Session.CmdPass | email_ms/smtp/session.go:138-139 | One command pass: it faults exactly when React does; QUIT or a read failure ends in the nil-connection flush; otherwise the session takes React's new state |
| SmtpSession.Session.DataPass | email_ms/smtp/session.go:140-146 | One data pass stays in Data; it panics exactly when the reference reader does |
| SmtpSession.Session.Step | email_ms/smtp/session.go:132-157 | One pass of the loop: a session in the shutdown state returns at once with nothing sent, and no other state leads there; the greeting moves to Cmd and sends the greeting; Data is never left; what has been sent only grows |
| SmtpSession.Session.StartSession | email_ms/smtp/session.go:132-157 | The whole loop: it ends at once without a connection; it returns only from the shutdown state; the data state is never left; the greeting is the first thing sent |
| SmtpClient.MailReaction | email_ms/smtp/client.go:171-187 | The client's MAIL always replies, never quits or upgrades, and keeps TLS and extended mode |
| SmtpClient.RcptReaction | email_ms/smtp/client.go:188-202 | The client's RCPT, when it does not fault, never quits or upgrades |
| SmtpClient.DataReaction | email_ms/smtp/client.go:214-220 | The client's DATA, when it does not fault, never quits or upgrades |
| SmtpClient.React | email_ms/smtp/client.go:142-226 | Only RCPT or DATA outside a transaction faults; only STARTTLS upgrades or changes the TLS flag, and the flag only turns on when the handshake succeeds; every recognised command other than STARTTLS is answered |
| SmtpClient.ReactTo | email_ms/smtp/client.go:153-225 | The same, stated for the command the switch selected |
| SmtpClient.ReactKeepsRecipientsWithin | email_ms/smtp/client.go:189-192 | No command takes the client's recipient list past 11 entries |
| SmtpClient.ReactToKeepsRecipientsWithin | email_ms/smtp/client.go:189-192 | The same bound, for the dispatcher |
| SmtpClient.Client.constructor | email_ms/smtp/client.go:76-80 | A new client in the greeting state with no envelope |
| SmtpClient.Client.ResetTransaction | email_ms/smtp/client.go:134-136 | Drops the envelope and changes nothing else |
| SmtpClient.Client.Close | email_ms/smtp/client.go:82-84 | Closes the connection and changes nothing else |
| SmtpClient.Client.ParseCmd | email_ms/smtp/client.go:142-226 | When no line can be read, the client closes. Otherwise the first line is consumed, and the state, the sent reply, closing and the TLS upgrade follow the client's reference reaction; it faults exactly when that reaction does |
| SmtpClient.Client.Dispatch | email_ms/smtp/client.go:153-225 | The same, for an already classified line |
| SmtpClient.Client.OnMail | email_ms/smtp/client.go:171-187 | MAIL takes the state and reply of the reference reaction |
| SmtpClient.Client.OnRcpt | email_ms/smtp/client.go:188-202 | RCPT takes the state and reply of the reference reaction, and faults exactly when it does |
| SmtpClient.Client.OnData | email_ms/smtp/client.go:214-220 | DATA takes the state and reply of the reference reaction, and faults exactly when it does |
| SmtpClient.Client.DataTurn | email_ms/smtp/client.go:108-121 | Sends the too-big error when more than 25 MB is buffered, then the invalid-email error when the body does not parse; the transaction always ends |
| SmtpClient.Client.Step | email_ms/smtp/client.go:99-132 | One pass: the greeting is sent and Cmd entered; the shutdown state closes the connection and its flush fails; Data is never left; what has been sent only grows; the recipient bound holds |
| SmtpClient.Client.Handle | email_ms/smtp/client.go:99-132 | The whole loop: without a connection it ends at once; what has been sent only grows, beginning with the greeting; the recipient bound is kept throughout |
| SmtpClient.ClientKeepsState | email_ms/smtp/client.go:153-225 | A client command leaves the state unchanged, except that DATA moves it to the data state |
| EmailController.FirstError | email_ms/controller/check_destinatary_middleware.go:10-14 | The position of the first recipient whose step fails: every earlier one succeeds |
| EmailController.ScannedStopsAtFirstFailure | email_ms/controller/check_destinatary_middleware.go:10-22 | The scan collects the entries of the recipients before the first failure and reports that failure's error; it has no error exactly when every step succeeds |
| EmailController.Recipients | email_ms/controller/check_destinatary_middleware.go:15-20 | The recipient addresses of a processing list, position by position |
| EmailController.FlattenSingles | email_ms/controller/check_destinatary_middleware.go:10-20 | When each recipient yields one entry, the collected list has one entry per recipient, in order |
| EmailController.CheckDestinataryMiddleware | email_ms/controller/check_destinatary_middleware.go:8-24 | The middleware's result is exactly that of the reference scan over the envelope's recipients |
| EmailController.CheckStep | email_ms/controller/check_destinatary_middleware.go:11-20 | A lookup error is returned as the failure; otherwise the address yields one entry exactly when the recipient exists, carrying that address and its public key and nothing else |
| EmailController.CheckedEntriesExist | email_ms/controller/check_destinatary_middleware.go:15-20 | Every collected entry is a listed recipient that the lookup found, carrying the key the lookup returned |
| EmailController.CheckedEntriesCover | email_ms/controller/check_destinatary_middleware.go:15-20 | Every listed recipient the lookup finds is collected |
| EmailController.CheckedAllInOrder | email_ms/controller/check_destinatary_middleware.go:8-24 | When every recipient exists, the list has one entry per recipient, in order, each with its key |
| EmailController.ValidateEmailMiddleware | email_ms/controller/validate_email_middleware.go:8-27 | The middleware's result is exactly that of the reference scan with the inbox check |
| EmailController.ValidateStep | email_ms/controller/validate_email_middleware.go:11-24 | An address succeeds exactly when its lookup succeeds and the envelope fits the inbox; a lookup error is returned as the failure, an overflowing inbox gives ErrInboxFull, and a success yields one entry with the address and its account record |
| EmailController.ValidatedAllOk | email_ms/controller/validate_email_middleware.go:10-18 | No error exactly when every recipient's lookup succeeds and the envelope fits in every inbox |
| EmailController.ValidatedInOrder | email_ms/controller/validate_email_middleware.go:20-23 | When all fit, one entry per recipient, in order, each with its account record |
| EmailController.ReachingTheMaximumIsAllowed | email_ms/controller/validate_email_middleware.go:16-18 | An envelope that fills an inbox exactly is accepted |
| EmailController.OneByteOverFails | email_ms/controller/validate_email_middleware.go:16-18 | One byte over the quota fails with the inbox-full error |
| EmailController.Fields | email_ms/controller/encrypt_email_middleware.go:43-54 | The four envelope parts encrypted for each recipient |
| EmailController.EncryptEnvelopeFields | email_ms/controller/encrypt_email_middleware.go:26-62 | The copy is sealed exactly when all four parts encrypt; it then holds the four ciphertexts; otherwise the error is the first failing part's error |
| EmailController.EncryptEnvelope | email_ms/controller/encrypt_email_middleware.go:26-62 | A sealed copy holds the encryptions of the sender, the recipient list, the title and the body (the text, or the HTML when the text is empty), and every other field at its zero value |
| EmailController.EncryptEmailMiddleware | email_ms/controller/encrypt_email_middleware.go:10-23 | The middleware's result is exactly that of the reference walk `Encrypted` over the processing list |
| EmailController.EncryptedInPlace | email_ms/controller/encrypt_email_middleware.go:12-20 | The list keeps its length and entries apart from their copies; there is no error exactly when every recipient's copy encrypts; before the first failure each entry holds its copy, addressed to it; from the failure on the entries are untouched |
| EmailController.EncryptedKeepsEntries | email_ms/controller/encrypt_email_middleware.go:12-20 | Only the copies change, never the recipients or keys |
| EmailController.EncryptedFailsAtFirstFailure | email_ms/controller/encrypt_email_middleware.go:14-17 | The walk fails exactly when some copy fails to encrypt, and it leaves every entry from that one on untouched |
| EmailController.EncryptedFillsPrefix | email_ms/controller/encrypt_email_middleware.go:18 | Every entry before the first failure holds its copy, addressed to its recipient |
| EmailController.FirstFailure | email_ms/controller/encrypt_email_middleware.go:12-17 | The position of the first recipient whose copy fails to encrypt |
| EmailController.CheckThenEncrypt | email_ms/smtp/pipeline_test.go:56-80 | With the recipient check then encryption in a pipeline, when every recipient exists and every copy encrypts: the run completes with one entry per recipient, in order, each holding its sealed copy |
| EmailController.AllFoundChecked | email_ms/controller/check_destinatary_middleware.go:8-24 | When every recipient exists, the check continues with one entry per recipient, each with its key |
| EmailController.AllEncrypted | email_ms/controller/encrypt_email_middleware.go:10-23 | When every copy encrypts, the encryption continues, with each recipient's copy in place |
| EmailModels.NewUnencryptedEmail | domain/models/email.go:32-39 | A blank envelope with no sender, recipients, attachments or body |
| EmailModels.EncryptedAttachmentsInOrder | domain/models/email.go:66-72 | The attachments appended are the requests' attachments in order, up to the first failure; none fails exactly when all encrypt; a failure is that of the first request that does not encrypt |
| EmailModels.EncryptedAttachments | domain/models/email.go:66-72 | Never more attachments than requests; all of them when no error stops the loop, and the error that stops it is an attachment failure |
| EmailModels.EncryptedAttachmentsKeep | domain/models/email.go:66-72 | What is appended is a prefix of the requests' attachments |
| EmailModels.EncryptedAttachmentsStop | domain/models/email.go:66-72 | The loop stops at the first failure and reports it |
| EmailModels.EncryptRequest | domain/models/email.go:53-75 | A sender that does not encrypt fails with the request unchanged; the encrypted sender is stored before the recipients are tried; recipients that do not encrypt fail with only the sender stored; otherwise the attachments are appended as the attachment loop gives them |
| EmailModels.EncryptAttachments | domain/models/email.go:66-72 | The loop computes exactly the reference list and failure |
| EmailModels.ToListErrors | domain/models/email.go:85-89 | One error per invalid recipient, with its index and cause, in index order, and none for the valid ones |
| EmailModels.AttachmentErrors | domain/models/email.go:91-95 | One error per invalid attachment request, in index order |
| EmailModels.ToListErrorsEmpty | domain/models/email.go:85-89 | No recipient error exactly when every recipient is valid |
| EmailModels.AttachmentErrorsEmpty | domain/models/email.go:91-95 | No attachment error exactly when every attachment has content |
| EmailModels.ValidateRequest | domain/models/email.go:78-101 | No error exactly when the sender, every recipient and every attachment are valid; a bad sender is reported first |
| EmailModels.ValidateEmail | domain/models/email.go:150-181 | A missing title or sender is a nil dereference; otherwise no error exactly when the id, recipients, title, sender and recipient list are present and there is a body or an attachment; the empty-email error is raised exactly when there is neither |
| AttachmentModels.ValidateRequest | domain/models/attachment.go:29-40 | No error exactly when the attachment has content |
| AttachmentModels.EncryptRequest | domain/models/attachment.go:19-26 | Fails exactly when the router fails, wrapping its error |
| AttachmentModels.ValidateMimeType | domain/models/mime_type.go:8-10 | An empty type passes; any other passes exactly when it parses as a media type |
| AttachmentModels.Collect | domain/models/attachment.go:61-100 | Collects at most one error per check |
| AttachmentModels.CollectMembers | domain/models/attachment.go:61-100 | An error is collected exactly when its check fails |
| AttachmentModels.CollectOrdered | domain/models/attachment.go:61-100 | Errors come out in the order the checks are written |
| AttachmentModels.CheckList | domain/models/attachment.go:61-100 | The checks are listed in source order |
| AttachmentModels.Checks | domain/models/attachment.go:61-100 | No error exactly when both ids are valid, the creation time is set, the expiry check passes, the size is non-zero, the MIME type is set and parses, and the hash is not present-but-empty; each error is raised exactly when its own check fails, in source order |
| AttachmentModels.Validate | domain/models/attachment.go:61-100 | As written: the expiry error is raised exactly when the current time is before the expiry date; errors keep source order |
| AttachmentModels.ValidateIntended | domain/models/attachment.go:76-78 | Corrected: the expiry error is raised exactly when the expiry date has passed |
| AttachmentModels.EmptyMimeTypeReportedOnce | domain/models/attachment.go:84-90 | An empty MIME type is reported as empty and not also as malformed |
| AttachmentModels.ExpiryCheckIsInverted | domain/models/attachment.go:76-78 | As written, an expiry one day ahead is rejected and one a day past is accepted; the corrected check does the opposite |
| AttachmentLegacy.ValidateRequest | domain/attachment.go:26-39 | No error exactly when the URL is set and parses; an empty URL gives exactly the empty-URL error |
| AttachmentLegacy.EncryptRequest | domain/attachment.go:16-23 | Fails exactly when the router fails, wrapping its error |
| AttachmentLegacy.Validate | domain/attachment.go:67-106 | As written: the expiry error is raised exactly when now is before the expiry date; a clean result implies size, MIME type and creation time are set; errors keep source order |
| AttachmentLegacy.ValidateIntended | domain/attachment.go:82-84 | Corrected: the expiry error is raised exactly when the expiry date has passed |
| Address.IndexOf | domain/models/address.go:32-37 | The position of the first occurrence of the character; the connection reader also uses it to find its delimiter (email_ms/smtp/connection.go:92) |
| Address.Domain | domain/models/address.go:32-37 | The domain never contains an '@'; when it is not empty it is the tail of the address that follows an '@' |
| Address.Validate | domain/models/address.go:16-26 | Accepts exactly when the length is 4 to 253 and the address matches the pattern of line 12; a length error exactly when the length is out of range; errors carry the address |
| Address.Split | domain/models/address.go:33 | strings.Split always yields at least one part |
| Address.SplitLength | domain/models/address.go:33 | Splitting gives one part more than there are separators |
| Address.SplitPartsClean | domain/models/address.go:33 | No part contains the separator |
| Address.SplitJoin | domain/models/address.go:33 | Joining the parts with the separator gives back the text |
| Address.JoinSplit | domain/models/address.go:33 | Splitting a join of separator-free parts gives back the parts |
| Address.IndexOfIsFirst | domain/models/address.go:33 | Any position holding the character with none before it is the one IndexOf finds |
| Address.CountAppend | domain/models/address.go:33 | Occurrence counts add up over concatenation |
| Address.CountAbsent | domain/models/address.go:33 | An absent character occurs zero times |
| Address.DomainSplitsAtTheOnlyAt | domain/models/address.go:32-37 | The domain of local@domain, with no other '@', is the domain part |
| Address.DomainNeedsExactlyOneAt | domain/models/address.go:32-37 | The domain is empty unless the address has exactly one '@' |
| Address.DomainPartHasNoAt | domain/models/address.go:12 | The domain half of the pattern contains no '@' |
| Address.LocalCharIsNotAt | domain/models/address.go:12 | The local-part character class excludes '@' |
| Address.DomainPartNotEmpty | domain/models/address.go:12 | The domain half of the pattern is never empty |
| Address.DecomposeAt | domain/models/address.go:32-37 | When the only '@' is at position k, the domain is everything after it |
| Address.LocalPartHasNoAt | domain/models/address.go:12 | A run of local-part characters has no '@' |
| Address.SplitsAt | domain/models/address.go:32-37 | An address with its only '@' at position k is its local part, '@' and its domain |
| Address.ValidAddressDecomposes | domain/models/address.go:12-37 | A valid address has exactly one '@', a non-empty local part, and a domain that matches the label grammar |
| Address.DomainExample | domain/models/address.go:29-31 | "alysson@letter.me" has domain "letter.me" |
| Address.RejectsNonAsciiLocalPart | domain/models/address.go:22-24 | "alysson¨@letter.me" fails the pattern |
| DatabaseId.Validate | domain/models/database_id.go:9-14 | An id is valid exactly when it is empty or 40 bytes long, and the error carries the id |
| DatabaseId.ValidityIsLengthOnly | domain/models/database_id.go:10 | Ids of equal length are valid together or invalid together |
| Rsa.IsZero | domain/rsa.go:66-69 | A key counts as absent exactly when its exponent is 0, whatever its modulus; the zero-value key is absent |
| Rsa.Size | domain/rsa.go:131 | The key size is the fewest octets that hold every bit of the modulus, and it is 0 only for a zero modulus |
| Rsa.ChunksConcat | domain/rsa.go:164-176 | The blocks the loop cuts, put back together, are the message |
| Rsa.ChunksSizes | domain/rsa.go:164-169 | Every block is non-empty and at most one step long, and all but the last are exactly one step |
| Rsa.ChunksOfFullBlocks | domain/rsa.go:135-140 | Cutting a concatenation of full-size blocks gives back those blocks |
| Rsa.StepBlocks | domain/rsa.go:164-169 | One iteration of the offset loop cuts exactly the next block |
| Rsa.PrependStep | domain/rsa.go:170-175 | Appending one block's output commutes with applying the rest |
| Rsa.FinishBlocks | domain/rsa.go:164 | When the offset reaches the end, the loop returns what it built |
| Rsa.Encrypt | domain/rsa.go:153-183 | A JSON error is returned as is. For a non-empty message, a negative step is a slice panic; a zero step encrypts the empty first block and returns its error, or loops forever when it succeeds. Otherwise the result is the blocks encrypted in order, labelled rsa_oaep / sha-256, or the first failing block's error |
| Rsa.Decrypt | domain/rsa.go:129-150 | For a non-empty buffer and a zero key size, the empty first block is decrypted and its error returned, or the loop runs forever when it succeeds; otherwise the blocks are decrypted in order and the plaintext is handed to the JSON decoder, or the first failing block's error is returned |
| Rsa.ApplyFullBlocks | domain/rsa.go:170-175 | When every block's output has the same width, applying them succeeds with the concatenated outputs |
| Rsa.BlockRoundTrip | domain/rsa.go:129-183 | When each block's decryption inverts its encryption and a ciphertext block is one key size wide, decrypting the encrypted message gives the message back |
| Rsa.ApplyFullBlocksInverse | domain/rsa.go:135-147 | Decrypting blocks that each invert to a known plaintext gives their concatenation |
| CryptoRouter.ValidateConfig | domain/crypto_router.go:22-35 | No error exactly when some algorithm is configured and a default is named; each error is raised exactly when its own field is missing, in source order |
| CryptoRouter.StringToHash | domain/crypto_router.go:44-51 | Only "sha-256" is a known hash; any other name gives the not-found error naming it. The copy in domain/cryptography/router.go:29-36 is the same function, and CryptographyRouter uses this one |
| CryptoRouter.NewCryptoRouter | domain/crypto_router.go:53-71 | Builds the reference router: the default is kept and RSA-OAEP is registered exactly when it is configured; nothing else is registered |
| CryptoRouter.RouteDecrypt | domain/crypto_router.go:80-86 | A buffer is served by the algorithm named in it, or gets the not-found error with that name |
| CryptoRouter.RouteEncrypt | domain/crypto_router.go:88-94 | Encryption uses the default algorithm, or gets the not-found error |
| CryptoRouter.RouteEncryptAlgorithm | domain/crypto_router.go:96-102 | As written: a registered name gets the not-found error and an unregistered one a call on nil |
| CryptoRouter.RouteEncryptAlgorithmIntended | domain/crypto_router.go:96-102 | Corrected: a name is served exactly when it is registered, by its own algorithm, and never reaches a nil call |
| CryptoRouter.EncryptAlgorithmNeverServes | domain/crypto_router.go:96-102 | With RSA-OAEP configured, the router as written never serves EncryptAlgorithm, while the corrected one does |
| CryptographyRouter.NewRouter | domain/cryptography/router.go:38-55 | Builds the reference router; it fails exactly when RSA-OAEP is configured with an unknown hash |
| CryptographyRouter.RouteDecrypt | domain/cryptography/router.go:64-70 | Served exactly when the buffer's algorithm is registered, by that algorithm |
| CryptographyRouter.RouteEncrypt | domain/cryptography/router.go:72-78 | Served exactly when the default algorithm is registered |
| CryptographyRouter.RouteEncryptAlgorithm | domain/cryptography/router.go:80-86 | Served exactly when the named algorithm is registered, by that algorithm |
| CryptographyRouter.RoutersAgree | domain/cryptography/router.go:38-86 | Both routers build from the same settings with the same registrations, and this router's EncryptAlgorithm is the corrected one of the other |
| AuthConfig.Validate | domain/authentication.go:18-31 | A missing private key is a nil dereference; otherwise no error exactly when the key is set and the expiry is non-zero, each error raised exactly when its own check fails, in source order |
| AccountMsModels.ValidateCreate | account_ms/models/create_account_request.go:15-31 | Accepts exactly when the address is valid, in letter.me, and the public key is set; an empty address, a malformed address, a foreign domain and an empty key are each reported exactly when they are the first failure; a missing key pointer is a nil dereference |
| AccountMsModels.AcceptedAddressIsLocal | account_ms/models/create_account_request.go:24-26 | An accepted address is a non-empty local part followed by "@letter.me" |
| AccountMsModels.MalformedAddressRejected | account_ms/controller/create_account_test.go:80-85 | "alysson¨@letter.me" is refused as a malformed address |
| AccountMsModels.ValidateReset | account_ms/models/reset_public_key_request.go:16-23 | Accepts exactly when the ownership key and the public key are set; an empty ownership key is reported first; a missing key pointer is a nil dereference |
| AccountManagerModels.ValidateCreate | account_manager/models/create_account_request.go:16-23 | Accepts exactly when the address is not empty and the public key is set; the address is checked first |
| AccountManagerModels.ServiceAcceptanceImpliesManagerAcceptance | account_manager/models/create_account_request.go:16-23 | Every request the account service accepts, the account manager accepts too |
| AccountManagerModels.ManagerSkipsSyntax | account_manager/models/create_account_request.go:16-23 | The manager accepts "ab", which the account service refuses: it never checks the address's syntax |
| AccountHandlers.VerifyEmailExistence | account_ms/handler/verify_email_existence.go:12-27 | A body that does not decode gives the wrapped decode error. Found means exists, and not-found means does not exist. Any other lookup error gives the wrapped internal error. A reply has a response exactly when it has no error |
| AccountHandlers.GetAccountPublicInfo | account_ms/handler/get_account_public_info.go:12-27 | The same mapping, answering with the account's info, or an empty response when it is not found |
| AccountHandlers.HandlersAgree | account_ms/handler/verify_email_existence.go:18-26 | With the same lookup the two handlers fail alike, and "exists" is true exactly when the info is present |
| MongoConfig.Validate | domain/persistence/mongo/client.go:30-48 | No error exactly when hosts, session name and database name are all set; each empty field is reported exactly once, all collected, in source order |
| MongoUtils.Hex | domain/persistence/utils.go:14 | Two lower-case hex digits per octet |
| MongoUtils.ConvertMongoIdsToDatabaseIds | domain/persistence/utils.go:10-20 | Succeeds exactly when every element is an ObjectID, giving each one's hex form in the same position; otherwise no list and the cast error of the package DatabaseID comes from |
| MongoUtils.IdCastError | account_ms/persistence/utils.go:16 | The cast error names primitive.ObjectID and the DatabaseID type as its package prints it: models.DatabaseID for domain/models, domain.DatabaseID for domain |
| MongoUtils.ConvertedIdsAreNotValidDatabaseIds | domain/persistence/utils.go:14 | A converted 12-octet ObjectID is 24 characters long, so the DatabaseID length rule refuses it |
| MongoUtils.KeysOf | domain/persistence/utils.go:26-29 | The index's keys list holds exactly the map's pairs, each key once |
| MongoUtils.ConvertGenericIndexesToMongo | domain/persistence/utils.go:22-35 | One index model per map, in input order, each listing exactly its map's pairs |

## Left out

- Sockets, TLS handshakes, clocks, the bufio read-ahead, and logging are not modelled as such. A socket is scripted input, a handshake is a parameter carrying its result, and a deadline is recorded as its duration.
- Goroutines, and the blocking of the semaphore channel and the WaitGroup, are not modelled. Pool calls are taken one at a time, and a send on a full channel is the precondition that a token is free.
- The maps and helpers of the runtime libraries are not modelled: sync.Map is a map, sync.Pool is the buffer it hands out, and the envelope parser (enmime), MIME, URL and JSON parsing are function parameters.
- The email address regular expression is written out as a grammar for its exact pattern. No regular-expression engine is modelled.
- The RSA-OAEP primitives are not modelled. Block encryption and decryption are parameters. `PublicKey.Size` is the key modulus's byte length, and `PrivateKey.Get` is left out because it only copies the key.
- The `Connection` type the older client.go uses is not part of this model. `SmtpClient.LegacyConnection` stands in for its send, read, flush, close and TLS-upgrade calls, with contracts stating only that interface. One assumption goes beyond that interface: `LegacyConnection.Flush` fails once the connection is closed, and this is what ends `SmtpClient.Client.Handle` after QUIT.
- SmtpSession.Session.StartSession: the loop takes a `fuel` bound, because the data state is never left and the loop can spin forever. It does not model a run longer than its fuel.
- SmtpClient.Client.Handle: takes a `fuel` bound for the same reason. SmtpConnectionPool.ConnectionPool.HandleConnection leaves a client that ran out of fuel registered, as one still running.
- SmtpSession.Session.OnStartTls: session.go calls `UpgradeTLS(nil)`, and a TLS server without a configuration cannot complete a handshake. The model keeps the handshake's result as a parameter, so its success outcome (the TLS flag turning on) is kept only as the connection interface allows it; this source cannot reach it.
- AttachmentLegacy: domain/attachment.go calls `Validate` on `domain.DatabaseID`, `domain.MimeType` and `domain.URL`, which are not part of this model. The model assumes they behave like the domain/models versions.
- session.go's readData passes both results of `ReadEnvelope` to the MIME parser, which does not compile as written. The model reads the envelope and then applies the MIME parser to an accepted one.
- cryptography/router.go refers to a `sha256` constant that is not declared in the source. Both routers take "sha-256", the value of the declared `SHA256` label.
- The envelope size and the inbox quota fields that validate_email_middleware.go reads are not declared in this revision of the models. The envelope size is a parameter, and the quota fields belong to the lookup's record.
- server.go's Listen hands each socket to `HandleConnection`, which the session pool does not define. The model records the sockets handed over.
- The XCLIENT command is declared but no branch handles it, so it is treated as an unmatched line.
- The STARTTLS line is commented out of the session's EHLO advertisement, and the model follows the code.
- SmtpSessionPool.SessionPool.AddSession: the error return after a failed connection is unreachable, because the pool opens connections without a TLS configuration. That path is not stated.
- AccountMsModels.ValidateCreate and AccountMsModels.ValidateReset: the `IsZero` of the `*cryptography.PublicKey` these requests hold is not part of this model. The checks use the value-receiver `IsZero` of domain/rsa.go, which tests only the exponent, so a nil key pointer is the nil-dereference fault `NilKeyFault`.
- SmtpConnection.ConnectionAdapter.AddBuffer: bufio.Writer writes its 4096-byte buffer to the socket by itself once it fills, before any Flush. The model keeps everything in the output buffer until Flush, so it does not capture a partial write, or its error, in the middle of a long reply.
- MongoUtils.KeysOf: Go map iteration order is unspecified, so the model states only that the key list holds the map's pairs, each once, in some order.

## Findings

| source | as written | input that shows it | evidently intended | confidence | as-written member | corrected member |
|---|---|---|---|---|---|---|
| domain/models/attachment.go:76-78 | `time.Now().Before(ValidUntil)` rejects an attachment whose expiry is still ahead | validUntil = now + 86400 s is rejected; now - 86400 s is accepted | reject attachments whose expiry date has passed | not executed | AttachmentModels.ExpiryCheckIsInverted | AttachmentModels.ValidateIntended |
| domain/attachment.go:82-84 | the same inverted expiry test in the legacy package | validUntil = now + 86400 s is rejected | reject attachments whose expiry date has passed | not executed | AttachmentLegacy.Validate | AttachmentLegacy.ValidateIntended |
| domain/crypto_router.go:96-102 | the `!ok` test is inverted: a registered algorithm answers "handler not found", and an unregistered one calls Encrypt on a nil interface | EncryptAlgorithm with "rsa_oaep" configured | serve registered algorithms, report unknown ones | not executed | CryptoRouter.EncryptAlgorithmNeverServes | CryptoRouter.RouteEncryptAlgorithmIntended |
| email_ms/smtp/pipeline.go:49-53 | the loop wraps slot `size-i`, which past the first step is a nil slot, so with three or more middlewares the first one calls a nil handler | three middlewares that all continue | each middleware wraps the one configured after it | not executed | SmtpPipeline.ThirdMiddlewareCutsTheChain | SmtpPipeline.ChainedRunsAll |
