/** The older connection pool (email_ms/smtp/connection_pool.go), which
    serves Client state machines.  As in the session pool, the semaphore is
    the count of tokens held, the WaitGroup the count in flight, and the
    sync.Map a map, here keyed by the client's remote address. */
module SmtpConnectionPool {
  import SP = SmtpSessionPool
  import SC = SmtpClient
  import S = SmtpSession

  /** The deadline Shutdown gives the clients still running. */
  const ShutdownGrace: int := SP.Second

  /** How removeClient ends: normally, by the nil dereference of a client
      without a connection, or by the WaitGroup's negative counter. */
  datatype RemoveOutcome = Removed | NilConnection | NegativeCounter

  datatype ShutdownOutcome = Waiting(signalled: bool) | NilClientConnection

  class ConnectionPool {
    const capacity: nat
    var held: nat
    var inFlight: int
    var active: map<string, SC.Client>

    predicate Valid()
      reads this
    {
      held <= capacity && inFlight == held
    }

    function Connections(): set<SC.LegacyConnection>
      reads this, active.Values
    {
      set a | a in active && active[a].conn != null :: active[a].conn
    }

    /** NewConnectionPool: an empty pool. */
    constructor (capacity: nat)
      ensures this.capacity == capacity && held == 0 && inFlight == 0 && active == map[] && Valid()
    {
      this.capacity := capacity;
      held := 0;
      inFlight := 0;
      active := map[];
    }

    /** addConnection: takes a token, counts the client in flight and
        registers a fresh client under its remote address, replacing any
        client registered there; it never fails. */
    method AddConnection(conn: SC.LegacyConnection) returns (client: SC.Client)
      requires Valid() && held < capacity
      modifies this
      ensures Valid() && held == old(held) + 1 && inFlight == old(inFlight) + 1
      ensures fresh(client) && client.conn == conn && client.state == S.Greeting && client.envelope.None?
      ensures !client.tls && !client.eSMTP
      ensures active == old(active)[conn.remoteAddr := client]
    {
      held := held + 1;
      inFlight := inFlight + 1;
      client := new SC.Client(conn);
      active := active[conn.remoteAddr := client];
    }

    /** removeClient: closes the client, forgets its address, counts it
        out of flight and releases one token. */
    method RemoveClient(client: SC.Client) returns (outcome: RemoveOutcome)
      requires Valid()
      modifies this, client.conn
      ensures Valid()
      ensures outcome == NilConnection <==> client.conn == null
      ensures outcome == NilConnection ==> active == old(active) && held == old(held) && inFlight == old(inFlight)
      ensures outcome == NegativeCounter <==> client.conn != null && old(inFlight) == 0
      ensures outcome != NilConnection ==> client.conn.closed && active == old(active) - {client.conn.remoteAddr}
      ensures outcome != NilConnection ==> client.conn.sendLog == old(client.conn.sendLog)
      ensures outcome == Removed ==> held == old(held) - 1 && inFlight == old(inFlight) - 1
      ensures outcome == NegativeCounter ==> held == old(held) && inFlight == old(inFlight)
    {
      if client.conn == null {
        return NilConnection;
      }
      client.Close();
      active := active - {client.conn.remoteAddr};
      if inFlight == 0 {
        return NegativeCounter;
      }
      inFlight := inFlight - 1;
      held := held - 1;
      return Removed;
    }

    /** handleConnection: registers the client and lets it handle the
        connection.  When the client returns, it is removed, so the pool's
        counts and tokens come back to where they were and the address is no
        longer registered, whichever client held it before.  When the client
        dereferences its nil envelope instead, the panic unwinds the
        goroutine before removeClient, and the client stays registered with
        its token held; so it does while the client is still running. */
    method HandleConnection(conn: SC.LegacyConnection, hostname: string, fuel: nat) returns (exit: SC.Exit)
      requires Valid() && held < capacity
      modifies this, conn
      ensures Valid() && exit != SC.Ended
      ensures exit != SC.NilEnvelopeFault && exit != SC.OutOfFuel ==>
                held == old(held) && inFlight == old(inFlight)
                && active == old(active) - {conn.remoteAddr} && conn.closed
      ensures exit == SC.NilEnvelopeFault || exit == SC.OutOfFuel ==>
                held == old(held) + 1 && inFlight == old(inFlight) + 1
                && active.Keys == old(active).Keys + {conn.remoteAddr}
                && active[conn.remoteAddr].conn == conn
      ensures old(conn.sendLog) <= conn.sendLog
      ensures fuel > 0 ==> old(conn.sendLog) + [[S.MessageGreet(hostname)]] <= conn.sendLog
    {
      var client := AddConnection(conn);
      exit := client.Handle(hostname, fuel);
      if exit == SC.NilEnvelopeFault || exit == SC.OutOfFuel {
        return;
      }
      var outcome := RemoveClient(client);
    }

    /** Shutdown: gives every registered client's connection a one-second
        deadline and hands back the completion channel. */
    method Shutdown() returns (outcome: ShutdownOutcome)
      modifies Connections()
      ensures outcome == NilClientConnection <==> exists a :: a in active && active[a].conn == null
      ensures outcome.Waiting? ==> outcome.signalled == (inFlight == 0)
      ensures outcome.Waiting? ==> forall a :: a in active ==>
                old(active[a].conn.deadlines) + [ShutdownGrace] <= active[a].conn.deadlines
      ensures forall a :: a in active && active[a].conn != null ==>
                active[a].conn.sendLog == old(active[a].conn.sendLog) && active[a].conn.closed == old(active[a].conn.closed)
    {
      var conns := map a | a in active :: active[a].conn;
      assert forall a :: a in active ==> conns[a] == active[a].conn;
      var panicked := GiveGrace(conns);
      assert forall a :: a in active ==> conns[a] == active[a].conn;
      if panicked {
        return NilClientConnection;
      }
      return Waiting(inFlight == 0);
    }
  }

  /** The walk over the registered clients, in the map's unspecified order. */
  method GiveGrace(conns: map<string, SC.LegacyConnection?>) returns (panicked: bool)
    modifies set a | a in conns && conns[a] != null :: conns[a]
    ensures panicked <==> exists a :: a in conns && conns[a] == null
    ensures !panicked ==> forall a :: a in conns ==> old(conns[a].deadlines) + [ShutdownGrace] <= conns[a].deadlines
    ensures forall a :: a in conns && conns[a] != null ==>
              conns[a].sendLog == old(conns[a].sendLog) && conns[a].closed == old(conns[a].closed)
  {
    var remaining := conns.Keys;
    while remaining != {}
      invariant remaining <= conns.Keys
      invariant forall a :: a in conns && conns[a] != null ==>
                  SP.ExtendedBy(old(conns[a].deadlines), conns[a].deadlines, ShutdownGrace)
      invariant forall a :: a in conns && conns[a] != null ==>
                  conns[a].sendLog == old(conns[a].sendLog) && conns[a].closed == old(conns[a].closed)
      invariant forall a :: a in conns && a !in remaining ==>
                  conns[a] != null && |old(conns[a].deadlines)| < |conns[a].deadlines|
      decreases |remaining|
    {
      var a :| a in remaining;
      var conn := conns[a];
      if conn == null {
        return true;
      }
      label before:
      conn.SetDeadline(ShutdownGrace);
      forall other | other in conns && conns[other] != null
        ensures SP.ExtendedBy(old(conns[other].deadlines), conns[other].deadlines, ShutdownGrace)
      {
        if conns[other] == conn {
          SP.ExtendedByStep(old(conn.deadlines), old@before(conn.deadlines), ShutdownGrace);
        }
      }
      remaining := remaining - {a};
    }
    forall a | a in conns
      ensures old(conns[a].deadlines) + [ShutdownGrace] <= conns[a].deadlines
    {
      SP.ExtendedByFirst(old(conns[a].deadlines), conns[a].deadlines, ShutdownGrace);
    }
    return false;
  }
}
