/** The session pool of the SMTP front end (email_ms/smtp/session_pool.go).
    Its semaphore channel is the count of tokens held, its WaitGroup the
    count of sessions in flight, and its sync.Map a map from session ids to
    sessions.  Calls are taken one at a time: a send on the full channel,
    which would block, is the precondition that a token is free. */
module SmtpSessionPool {
  import opened Outcomes
  import C = SmtpConnection
  import S = SmtpSession

  /** time.Second, in the nanoseconds of time.Duration. */
  const Second: int := 1000000000

  /** The grace period Shutdown gives the sessions still running. */
  const ShutdownGrace: int := 10 * Second

  /** How CloseSession ends: normally, by the nil dereference of a session
      whose connection is gone, or by the WaitGroup panicking on a negative
      counter. */
  datatype CloseOutcome = Closed | NilConnection | NegativeCounter

  /** How Shutdown ends: with the completion channel, already signalled
      exactly when nothing is in flight, or by the nil dereference of a
      session without a connection. */
  datatype ShutdownOutcome = Waiting(signalled: bool) | NilSessionConnection

  /** after is before followed by deadlines of d only. */
  predicate ExtendedBy(before: seq<int>, after: seq<int>, d: int)
  {
    before <= after && forall j :: |before| <= j < |after| ==> after[j] == d
  }

  lemma ExtendedByStep(before: seq<int>, after: seq<int>, d: int)
    requires ExtendedBy(before, after, d)
    ensures ExtendedBy(before, after + [d], d)
  {
  }

  lemma ExtendedByFirst(before: seq<int>, after: seq<int>, d: int)
    requires ExtendedBy(before, after, d) && |before| < |after|
    ensures before + [d] <= after
  {
    assert after[..|before| + 1] == before + [d];
  }

  class SessionPool {
    const ctxDone: bool
    const capacity: nat
    const timeout: int
    /** Tokens in the semaphore channel. */
    var held: nat
    /** The WaitGroup counter. */
    var inFlight: int
    var active: map<string, S.Session>

    /** Every token taken is matched by one session in flight, and no more
        tokens are out than the channel holds. */
    predicate Valid()
      reads this
    {
      held <= capacity && inFlight == held
    }

    /** The connections of the registered sessions, which Shutdown touches. */
    function Connections(): set<C.ConnectionAdapter>
      reads this, active.Values
    {
      set id | id in active && active[id].conn != null :: active[id].conn
    }

    /** NewSessionPool: an empty pool. */
    constructor (ctxDone: bool, capacity: nat, timeout: int)
      ensures this.ctxDone == ctxDone && this.capacity == capacity && this.timeout == timeout
      ensures held == 0 && inFlight == 0 && active == map[] && Valid()
    {
      this.ctxDone := ctxDone;
      this.capacity := capacity;
      this.timeout := timeout;
      held := 0;
      inFlight := 0;
      active := map[];
    }

    /** AddSession: takes a token and counts the session in flight before
        anything else, then opens a plain-text connection (no TLS
        configuration, so opening cannot fail) and registers a fresh session
        under the given id, a new UUID that no registered session holds.  The
        early return on an opening error, which would keep the token and the
        count, is therefore never taken. */
    method AddSession(socket: C.Socket, id: string) returns (session: S.Session?, err: Option<string>)
      requires Valid() && held < capacity
      requires id !in active
      modifies this
      ensures Valid()
      ensures held == old(held) + 1 && inFlight == old(inFlight) + 1
      ensures session != null && err == None && fresh(session) && fresh(session.conn)
      ensures active == old(active)[id := session] && |active| == |old(active)| + 1
      ensures session.sessionId == id && session.state == S.Greeting && session.envelope.None?
      ensures session.conn != null && !session.conn.tls && session.conn.deadlines == [timeout]
      ensures session.conn.inbound == socket.inbound && session.conn.raw == socket.raw && session.conn.sent == ""
    {
      held := held + 1;
      inFlight := inFlight + 1;
      var conn, e := C.NewConnection(ctxDone, socket, timeout, false, None);
      session := new S.Session(id, conn);
      active := active[id := session];
      err := e;
    }

    /** CloseSession: closes the session, forgets its id, counts it out of
        flight and releases one token. */
    method CloseSession(session: S.Session) returns (outcome: CloseOutcome)
      requires Valid()
      modifies this, session, session.conn
      ensures Valid()
      ensures outcome == NilConnection <==> old(session.conn) == null
      ensures outcome == NilConnection ==> active == old(active) && held == old(held) && inFlight == old(inFlight)
      ensures outcome == NegativeCounter <==> old(session.conn) != null && old(inFlight) == 0
      ensures outcome != NilConnection ==> session.conn == null && old(session.conn).closed
      ensures outcome != NilConnection ==> active == old(active) - {session.sessionId}
      ensures outcome == Closed ==> held == old(held) - 1 && inFlight == old(inFlight) - 1
      ensures outcome == NegativeCounter ==> held == old(held) && inFlight == old(inFlight)
    {
      var fault := session.Close();
      if fault {
        return NilConnection;
      }
      active := active - {session.sessionId};
      if inFlight == 0 {
        return NegativeCounter;
      }
      inFlight := inFlight - 1;
      held := held - 1;
      return Closed;
    }

    /** Shutdown: gives every registered session's connection a ten-second
        deadline and hands back the completion channel; nothing is
        deregistered. */
    method Shutdown() returns (outcome: ShutdownOutcome)
      modifies Connections()
      ensures outcome == NilSessionConnection <==> exists id :: id in active && active[id].conn == null
      ensures outcome.Waiting? ==> outcome.signalled == (inFlight == 0)
      ensures outcome.Waiting? ==> forall id :: id in active ==>
                old(active[id].conn.deadlines) + [ShutdownGrace] <= active[id].conn.deadlines
      ensures forall id :: id in active && active[id].conn != null ==>
                active[id].conn.sent == old(active[id].conn.sent) && active[id].conn.closed == old(active[id].conn.closed)
    {
      var conns := map id | id in active :: active[id].conn;
      assert forall id :: id in active ==> conns[id] == active[id].conn;
      var panicked := GiveGrace(conns);
      assert forall id :: id in active ==> conns[id] == active[id].conn;
      if panicked {
        return NilSessionConnection;
      }
      return Waiting(inFlight == 0);
    }
  }

  /** The walk over the registered sessions, in the map's unspecified
      order: each connection in turn gets the grace period as deadline, and
      a session without a connection is a nil dereference that ends it. */
  method GiveGrace(conns: map<string, C.ConnectionAdapter?>) returns (panicked: bool)
    modifies set id | id in conns && conns[id] != null :: conns[id]
    ensures panicked <==> exists id :: id in conns && conns[id] == null
    ensures !panicked ==> forall id :: id in conns ==> old(conns[id].deadlines) + [ShutdownGrace] <= conns[id].deadlines
    ensures forall id :: id in conns && conns[id] != null ==>
              conns[id].sent == old(conns[id].sent) && conns[id].closed == old(conns[id].closed)
  {
    var remaining := conns.Keys;
    while remaining != {}
      invariant remaining <= conns.Keys
      invariant forall id :: id in conns && conns[id] != null ==>
                  ExtendedBy(old(conns[id].deadlines), conns[id].deadlines, ShutdownGrace)
      invariant forall id :: id in conns && conns[id] != null ==>
                  conns[id].sent == old(conns[id].sent) && conns[id].closed == old(conns[id].closed)
      invariant forall id :: id in conns && id !in remaining ==>
                  conns[id] != null && |old(conns[id].deadlines)| < |conns[id].deadlines|
      decreases |remaining|
    {
      var id :| id in remaining;
      var conn := conns[id];
      if conn == null {
        return true;
      }
      label before:
      conn.SetDeadline(ShutdownGrace);
      forall other | other in conns && conns[other] != null
        ensures ExtendedBy(old(conns[other].deadlines), conns[other].deadlines, ShutdownGrace)
      {
        if conns[other] == conn {
          ExtendedByStep(old(conn.deadlines), old@before(conn.deadlines), ShutdownGrace);
        }
      }
      remaining := remaining - {id};
    }
    forall id | id in conns
      ensures old(conns[id].deadlines) + [ShutdownGrace] <= conns[id].deadlines
    {
      ExtendedByFirst(old(conns[id].deadlines), conns[id].deadlines, ShutdownGrace);
    }
    return false;
  }
}
