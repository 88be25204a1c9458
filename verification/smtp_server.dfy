/** The SMTP server (email_ms/smtp/server.go): its configuration check,
    the pool configuration it derives, the accept loop's error policy and
    its shutdown.  The listener is given as the result of opening it and
    the sequence of what its Accept calls return. */
module SmtpServer {
  import opened Outcomes
  import Rsa
  import C = SmtpConnection
  import SP = SmtpSessionPool

  /** ServerConfig; Timeout is a time.Duration, D of the private key a
      pointer that may be nil. */
  datatype ServerConfig = ServerConfig(maxClients: nat, timeout: int, privateKey: Rsa.PrivateKey, hostname: string)

  datatype ConfigError = InvalidMaxClients | InvalidTimeout | InvalidPrivateKey | InvalidHostname

  function Message(e: ConfigError): string
  {
    match e
    case InvalidMaxClients => "invalid max_clients value"
    case InvalidTimeout => "invalid timeout value"
    case InvalidPrivateKey => "invalid private_key value"
    case InvalidHostname => "invalid hostname"
  }

  /** ServerConfig.Validate: the checks in order, returning at the first
      that fails. */
  function Validate(c: ServerConfig): (r: Option<ConfigError>)
    ensures r.None? <==> c.maxClients > 0 && c.timeout != 0 && c.privateKey.d.Some? && c.hostname != ""
  {
    if c.maxClients == 0 then Some(InvalidMaxClients)
    else if c.timeout == 0 then Some(InvalidTimeout)
    else if c.privateKey.d.None? then Some(InvalidPrivateKey)
    else if c.hostname == "" then Some(InvalidHostname)
    else None
  }

  /** Every check the configuration fails, in the order Validate makes
      them: what a validator collecting its errors would report. */
  function Failures(c: ServerConfig): seq<ConfigError>
  {
    (if c.maxClients == 0 then [InvalidMaxClients] else [])
    + (if c.timeout == 0 then [InvalidTimeout] else [])
    + (if c.privateKey.d.None? then [InvalidPrivateKey] else [])
    + (if c.hostname == "" then [InvalidHostname] else [])
  }

  /** Validate reports exactly the first of the failures, and nothing
      when there are none. */
  lemma ValidateReportsFirstFailure(c: ServerConfig)
    ensures Validate(c) == if Failures(c) == [] then None else Some(Failures(c)[0])
  {
  }

  /** It does not collect them: a configuration failing every check is
      reported only as an invalid max_clients value. */
  lemma ValidateStopsAtFirst(key: Rsa.PublicKey)
    ensures var c := ServerConfig(0, 0, Rsa.PrivateKey(key, None), "");
            |Failures(c)| == 4 && Validate(c) == Some(InvalidMaxClients)
  {
  }

  /** The client-certificate policies of crypto/tls. */
  datatype ClientAuth = NoClientCert | RequestClientCert | RequireAnyClientCert
                      | VerifyClientCertIfGiven | RequireAndVerifyClientCert

  /** The parts of the TLS configuration NewServer sets. */
  datatype TlsConfig = TlsConfig(serverName: string, clientAuth: ClientAuth, certificateKey: Rsa.PrivateKey)

  /** The session pool's configuration. */
  datatype PoolConfig = PoolConfig(timeout: int, capacity: nat, hostname: string, tls: TlsConfig)

  /** NewServer's mapping: capacity from MaxClients, timeout from Timeout,
      the TLS server name from Hostname, client certificates verified only
      when given; the pool's own hostname is left empty. */
  function PoolConfigOf(c: ServerConfig): (p: PoolConfig)
    ensures p.capacity == c.maxClients && p.timeout == c.timeout && p.hostname == ""
    ensures p.tls == TlsConfig(c.hostname, VerifyClientCertIfGiven, c.privateKey)
  {
    PoolConfig(c.timeout, c.maxClients, "", TlsConfig(c.hostname, VerifyClientCertIfGiven, c.privateKey))
  }

  /** NewServer does not validate, so a configuration that passes is what
      makes the pool usable: at least one token, a non-zero deadline and a
      server name for TLS. */
  lemma ValidConfigGivesUsablePool(c: ServerConfig)
    requires Validate(c).None?
    ensures PoolConfigOf(c).capacity > 0 && PoolConfigOf(c).timeout != 0 && PoolConfigOf(c).tls.serverName != ""
  {
  }

  /** What one Accept call returns: a connection, or an error, which may or
      may not be a net.Error and, if it is one, temporary or not. */
  datatype AcceptEvent = Accepted(socket: C.Socket) | AcceptFailed(error: string, netError: bool, temporary: bool)

  /** An accept error ends the loop only when it is a net.Error that is
      not temporary. */
  predicate Stops(e: AcceptEvent)
  {
    e.AcceptFailed? && e.netError && !e.temporary
  }

  /** The position of the first event that ends the loop, or the number of
      events when none does. */
  function Until(events: seq<AcceptEvent>): (k: nat)
    ensures k <= |events|
    ensures forall i :: 0 <= i < k ==> !Stops(events[i])
    ensures k < |events| ==> Stops(events[k])
  {
    if events == [] || Stops(events[0]) then 0 else 1 + Until(events[1..])
  }

  /** The connections among the events, in order. */
  function Sockets(events: seq<AcceptEvent>): seq<C.Socket>
  {
    if events == [] then []
    else (if events[0].Accepted? then [events[0].socket] else []) + Sockets(events[1..])
  }

  /** The errors among the events, in order. */
  function Errors(events: seq<AcceptEvent>): seq<string>
  {
    if events == [] then []
    else (if events[0].AcceptFailed? then [events[0].error] else []) + Errors(events[1..])
  }

  /** The connections of consecutive runs of events are those of each run,
      one after the other. */
  lemma {:induction false} SocketsAppend(a: seq<AcceptEvent>, b: seq<AcceptEvent>)
    ensures Sockets(a + b) == Sockets(a) + Sockets(b)
  {
    if a != [] {
      assert (a + b)[0] == a[0] && (a + b)[1..] == a[1..] + b;
      SocketsAppend(a[1..], b);
      var head := if a[0].Accepted? then [a[0].socket] else [];
      assert Sockets(a + b) == head + Sockets(a[1..] + b);
      assert head + (Sockets(a[1..]) + Sockets(b)) == (head + Sockets(a[1..])) + Sockets(b);
    } else {
      assert a + b == b;
    }
  }

  /** Likewise for the errors logged. */
  lemma {:induction false} ErrorsAppend(a: seq<AcceptEvent>, b: seq<AcceptEvent>)
    ensures Errors(a + b) == Errors(a) + Errors(b)
  {
    if a != [] {
      assert (a + b)[0] == a[0] && (a + b)[1..] == a[1..] + b;
      ErrorsAppend(a[1..], b);
      var head := if a[0].AcceptFailed? then [a[0].error] else [];
      assert Errors(a + b) == head + Errors(a[1..] + b);
      assert head + (Errors(a[1..]) + Errors(b)) == (head + Errors(a[1..])) + Errors(b);
    } else {
      assert a + b == b;
    }
  }

  /** A failed Accept hands nothing over: inserting one anywhere leaves
      the connections handed to the pool as they were. */
  lemma FailuresHandNothing(a: seq<AcceptEvent>, f: AcceptEvent, b: seq<AcceptEvent>)
    requires f.AcceptFailed?
    ensures Sockets(a + [f] + b) == Sockets(a + b)
  {
    SocketsAppend(a + [f], b);
    SocketsAppend(a, [f]);
    SocketsAppend(a, b);
    assert [f][1..] == [];
  }

  /** One more event: its connection or its error joins those of the
      events before it. */
  lemma EventsStep(events: seq<AcceptEvent>, i: nat)
    requires i < |events|
    ensures Sockets(events[..i + 1]) == Sockets(events[..i]) + (if events[i].Accepted? then [events[i].socket] else [])
    ensures Errors(events[..i + 1]) == Errors(events[..i]) + (if events[i].AcceptFailed? then [events[i].error] else [])
  {
    assert events[..i + 1] == events[..i] + [events[i]];
    SocketsAppend(events[..i], [events[i]]);
    ErrorsAppend(events[..i], [events[i]]);
    assert [events[i]][1..] == [];
  }

  /** How Listen ends: the listener could not be opened, the loop stopped
      after shutting the pool down (returning nil, unless that shutdown
      faulted), or, in this model, the events ran out. */
  datatype ListenResult = ListenFailed(error: string) | Stopped(shutdown: SP.ShutdownOutcome) | EventsExhausted

  /** How Shutdown ends: nothing to do without a listener; otherwise the
      wait for the pool's signal, which comes at once when nothing is in
      flight and blocks otherwise, or the pool's fault. */
  datatype ShutdownResult = NoListener | Drained | Blocked | PoolFault

  class Server {
    const config: ServerConfig
    const poolConfig: PoolConfig
    const pool: SP.SessionPool
    /** s.listener != nil. */
    var listening: bool
    var listenerClosed: bool
    /** The connections passed on to the pool, in order. */
    var handed: seq<C.Socket>
    /** The accept errors logged and skipped. */
    var logged: seq<string>

    /** NewServer: never fails and does not validate the configuration. */
    constructor (ctxDone: bool, c: ServerConfig)
      ensures config == c && poolConfig == PoolConfigOf(c) && fresh(pool)
      ensures pool.capacity == c.maxClients && pool.timeout == c.timeout && pool.ctxDone == ctxDone
      ensures pool.held == 0 && pool.inFlight == 0 && pool.active == map[] && pool.Valid()
      ensures !listening && !listenerClosed && handed == [] && logged == []
    {
      config := c;
      poolConfig := PoolConfigOf(c);
      var p := PoolConfigOf(c);
      pool := new SP.SessionPool(ctxDone, p.capacity, p.timeout);
      listening := false;
      listenerClosed := false;
      handed := [];
      logged := [];
    }

    /** Listen: opens the listener, then accepts until an error that is a
        non-temporary net.Error, on which it shuts the pool down and
        returns nil; every other error is logged and skipped, and every
        connection is passed on to the pool. */
    method Listen(listenError: Option<string>, events: seq<AcceptEvent>) returns (r: ListenResult)
      modifies this, pool.Connections()
      ensures listenError.Some? ==> r == ListenFailed(listenError.value) && listening == old(listening)
                                    && handed == old(handed) && logged == old(logged)
      ensures listenError.None? ==> listening
      ensures listenError.None? ==> (r.Stopped? <==> Until(events) < |events|)
      ensures listenError.None? ==> handed == old(handed) + Sockets(events[..Until(events)])
      ensures listenError.None? ==> logged == old(logged) + Errors(events[..Until(events)])
      ensures listenerClosed == old(listenerClosed)
    {
      if listenError.Some? {
        return ListenFailed(listenError.value);
      }
      listening := true;
      var i := 0;
      while i < |events|
        invariant i <= Until(events)
        invariant handed == old(handed) + Sockets(events[..i])
        invariant logged == old(logged) + Errors(events[..i])
        invariant listening && listenerClosed == old(listenerClosed)
      {
        var e := events[i];
        if Stops(e) {
          var outcome := pool.Shutdown();
          return Stopped(outcome);
        }
        EventsStep(events, i);
        var socketTail := if e.Accepted? then [e.socket] else [];
        var errorTail := if e.AcceptFailed? then [e.error] else [];
        assert old(handed) + (Sockets(events[..i]) + socketTail) == (old(handed) + Sockets(events[..i])) + socketTail;
        assert old(logged) + (Errors(events[..i]) + errorTail) == (old(logged) + Errors(events[..i])) + errorTail;
        Record(e);
        i := i + 1;
      }
      return EventsExhausted;
    }

    /** One turn of the accept loop past an event that does not end it:
        an error is logged and skipped, a connection passed on. */
    method Record(e: AcceptEvent)
      modifies this
      ensures handed == old(handed) + (if e.Accepted? then [e.socket] else [])
      ensures logged == old(logged) + (if e.AcceptFailed? then [e.error] else [])
      ensures listening == old(listening) && listenerClosed == old(listenerClosed)
    {
      if e.AcceptFailed? {
        logged := logged + [e.error];
      } else {
        handed := handed + [e.socket];
      }
    }

    /** Shutdown: without a listener, nothing; otherwise closes it and
        waits for the pool to signal that every session has finished. */
    method Shutdown() returns (r: ShutdownResult)
      modifies this, pool.Connections()
      ensures !old(listening) ==> r == NoListener && listenerClosed == old(listenerClosed)
      ensures old(listening) ==> listenerClosed && r != NoListener
      ensures r == Drained ==> pool.inFlight == 0
      ensures r == Blocked ==> pool.inFlight != 0
      ensures listening == old(listening) && handed == old(handed) && logged == old(logged)
    {
      if !listening {
        return NoListener;
      }
      listenerClosed := true;
      var outcome := pool.Shutdown();
      if outcome.NilSessionConnection? {
        return PoolFault;
      }
      return if outcome.signalled then Drained else Blocked;
    }
  }
}
