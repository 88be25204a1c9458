/** The envelope pipeline of the SMTP front end (email_ms/smtp/pipeline.go).
    A middleware is known by what it does before handing over: it either
    continues with the pipeline it updated or stops with an error.  The
    handlers AddMiddlewares builds are terms over the middlewares'
    positions, and running one is the function Run. */
module SmtpPipeline {
  import opened Outcomes
  import Address
  import Rsa
  import E = EmailModels

  /** models.AccountAddressInfo: an account's address and public key. */
  datatype AccountAddressInfo = AccountAddressInfo(address: Address.Address, publicKey: Rsa.PublicKey)

  /** What a middleware returns: an error passed up from a call it made, or
      the controller's ErrInboxFull. */
  datatype Error = Failure(message: string) | InboxFull

  /** One recipient being processed: its address, and what the stages found
      for it (its public key, its account record, its encrypted copy). */
  datatype ProcessingEmail = ProcessingEmail(
    to: Address.Address,
    publicKey: Option<Rsa.PublicKey>,
    accountInfo: Option<AccountAddressInfo>,
    email: Option<E.Email>)

  /** The state the middlewares share. */
  datatype EmailPipeline = EmailPipeline(envelope: E.UnencryptedEmail, processing: seq<ProcessingEmail>)

  /** A middleware's work before it calls next: continue, or return an
      error, leaving the pipeline as it was written so far. */
  datatype Stage = Continue(pipeline: EmailPipeline) | Stop(error: Error, pipeline: EmailPipeline)

  type Middleware = EmailPipeline -> Stage

  /** A handler: emptyMiddleware, a nil slot of the slice, or the
      middleware at a position wrapped around the handler it calls next. */
  datatype Handler = Empty | Nil | Wrap(middleware: nat, next: Handler)

  /** Every middleware position a handler uses is below n. */
  predicate Within(h: Handler, n: nat)
  {
    match h
    case Empty => true
    case Nil => true
    case Wrap(m, next) => m < n && Within(next, n)
  }

  /** How running a handler ends: next chain returned nil, a middleware
      returned an error, or a middleware called a nil next. */
  datatype Outcome = Done(pipeline: EmailPipeline) | Failed(error: Error, pipeline: EmailPipeline)
                   | NilHandlerCall(pipeline: EmailPipeline)

  /** The chain ends in emptyMiddleware rather than in a nil slot. */
  predicate EndsInEmpty(h: Handler)
  {
    match h
    case Empty => true
    case Nil => false
    case Wrap(_, next) => EndsInEmpty(next)
  }

  /** Running a handler: only a chain ending in emptyMiddleware can
      complete, and only one ending in a nil slot can call nil. */
  function Run(h: Handler, ms: seq<Middleware>, p: EmailPipeline): (o: Outcome)
    requires Within(h, |ms|)
    ensures o.Done? ==> EndsInEmpty(h)
    ensures o.NilHandlerCall? ==> !EndsInEmpty(h)
  {
    match h
    case Empty => Done(p)
    case Nil => NilHandlerCall(p)
    case Wrap(m, next) =>
      (match ms[m](p)
       case Stop(e, q) => Failed(e, q)
       case Continue(q) => Run(next, ms, q))
  }

  /** The reference behaviour: the middlewares run in order, each on what
      the previous one left, until one stops. */
  function Sequence(ms: seq<Middleware>, p: EmailPipeline): Outcome
  {
    if ms == [] then Done(p)
    else match ms[0](p)
      case Stop(e, q) => Failed(e, q)
      case Continue(q) => Sequence(ms[1..], q)
  }

  /** The chain that runs the middlewares from position k on, ending in
      emptyMiddleware. */
  function Chain(k: nat, n: nat): (h: Handler)
    ensures Within(h, n)
    decreases n - k
  {
    if k >= n then Empty else Wrap(k, Chain(k + 1, n))
  }

  /** The chain runs the middlewares in their configured order. */
  lemma {:induction false} ChainRunsInOrder(ms: seq<Middleware>, k: nat, p: EmailPipeline)
    requires k <= |ms|
    ensures Run(Chain(k, |ms|), ms, p) == Sequence(ms[k..], p)
    decreases |ms| - k
  {
    if k < |ms| {
      assert ms[k..][0] == ms[k];
      assert ms[k..][1..] == ms[k + 1..];
      match ms[k](p)
      case Stop(e, q) =>
      case Continue(q) => ChainRunsInOrder(ms, k + 1, q);
    }
  }

  /** An error stops the run: the later middlewares do not run and the
      writes made so far stay. */
  lemma StopSkipsTheRest(ms: seq<Middleware>, p: EmailPipeline)
    requires ms != [] && ms[0](p).Stop?
    ensures Sequence(ms, p) == Failed(ms[0](p).error, ms[0](p).pipeline)
  {
  }

  /** What AddMiddlewares leaves in the slice for n > 0 middlewares: n - 1
      nil slots, the last middleware around emptyMiddleware, then for each
      i from 1 the middleware at n - 1 - i around slot n - i, which is only
      filled for i = 1. */
  function Built(n: nat): (hs: seq<Handler>)
    requires n > 0
    ensures |hs| == 2 * n - 1 && forall k :: 0 <= k < |hs| ==> Within(hs[k], n)
  {
    seq(2 * n - 1, k requires 0 <= k < 2 * n - 1 => Slot(n, k))
  }

  /** Slot k of that slice. */
  function Slot(n: nat, k: nat): (h: Handler)
    requires 0 < n && k < 2 * n - 1
    ensures Within(h, n)
  {
    if k < n - 1 then Nil
    else if k == n - 1 then Wrap(n - 1, Empty)
    else Wrap(2 * n - 2 - k, if k == n then Wrap(n - 1, Empty) else Nil)
  }

  /** Wrapping an error keeps errors.Is true for the original. */
  datatype StartError = Wrapped(message: string, cause: Error)

  const WrapMessage: string := "failed to process envelope pipeline"

  predicate Is(e: StartError, target: Error)
  {
    e.cause == target
  }

  /** How Start ends: nil, the wrapped error, the index -1 on an empty
      slice, or the nil-handler call. */
  datatype StartResult = Accepted(pipeline: EmailPipeline) | Rejected(error: StartError, pipeline: EmailPipeline)
                       | EmptyPipeline | NilHandler(pipeline: EmailPipeline)

  function StartOf(o: Outcome): (r: StartResult)
    ensures o.Done? <==> r.Accepted?
    ensures o.Failed? <==> r.Rejected?
    ensures r.Rejected? ==> Is(r.error, o.error) && r.error.message == WrapMessage && r.pipeline == o.pipeline
  {
    match o
    case Done(p) => Accepted(p)
    case Failed(e, p) => Rejected(Wrapped(WrapMessage, e), p)
    case NilHandlerCall(p) => NilHandler(p)
  }

  class Pipeline {
    var handlers: seq<Handler>
    var middlewares: seq<Middleware>

    /** Every handler refers to a middleware that is there. */
    predicate Valid()
      reads this
    {
      forall k :: 0 <= k < |handlers| ==> Within(handlers[k], |middlewares|)
    }

    /** Pipeline{}: no handlers. */
    constructor ()
      ensures handlers == [] && middlewares == [] && Valid()
    {
      handlers := [];
      middlewares := [];
    }

    /** AddMiddlewares as written: the loop reads slot size - i, which past
        the first step is one of the nil slots make left. */
    method AddMiddlewares(ms: seq<Middleware>)
      requires Valid()
      modifies this
      ensures Valid()
      ensures ms == [] ==> handlers == old(handlers) && middlewares == old(middlewares)
      ensures ms != [] ==> handlers == Built(|ms|) && middlewares == ms
    {
      var size := |ms|;
      if size == 0 {
        return;
      }
      middlewares := ms;
      var p: seq<Handler> := seq(size, _ => Nil);
      p := p[size - 1 := Wrap(size - 1, Empty)];
      for i := 1 to size
        invariant |p| == size + i - 1
        invariant p == Built(size)[..size + i - 1]
      {
        var previous := p[size - i];
        p := p + [Wrap(size - 1 - i, previous)];
      }
      handlers := p;
    }

    /** AddMiddlewares with the loop reading the handler it appended last,
        so that each middleware wraps the one configured after it. */
    method AddMiddlewaresChained(ms: seq<Middleware>)
      requires Valid()
      modifies this
      ensures Valid()
      ensures ms == [] ==> handlers == old(handlers) && middlewares == old(middlewares)
      ensures ms != [] ==> middlewares == ms && |handlers| == 2 * |ms| - 1
      ensures ms != [] ==> handlers[|handlers| - 1] == Chain(0, |ms|)
    {
      var size := |ms|;
      if size == 0 {
        return;
      }
      middlewares := ms;
      var p: seq<Handler> := seq(size, _ => Nil);
      p := p[size - 1 := Wrap(size - 1, Empty)];
      for i := 1 to size
        invariant |p| == size + i - 1
        invariant p[|p| - 1] == Chain(size - i, size)
        invariant forall k :: 0 <= k < |p| ==> Within(p[k], size)
      {
        var previous := p[|p| - 1];
        p := p + [Wrap(size - 1 - i, previous)];
      }
      handlers := p;
    }

    /** Start: runs the last handler of the slice on a fresh pipeline with
        an empty processing list. */
    method Start(envelope: E.UnencryptedEmail) returns (r: StartResult)
      requires Valid()
      ensures handlers == [] ==> r == EmptyPipeline
      ensures handlers != [] ==>
                r == StartOf(Run(handlers[|handlers| - 1], middlewares, EmailPipeline(envelope, [])))
    {
      if |handlers| == 0 {
        return EmptyPipeline;
      }
      var last := handlers[|handlers| - 1];
      var o := Run(last, middlewares, EmailPipeline(envelope, []));
      r := StartOf(o);
    }
  }

  /** The handler Start runs after AddMiddlewares as written: the whole
      chain for one or two middlewares, and for three or more the first
      middleware around a nil next. */
  lemma StartHandlerOfBuilt(n: nat)
    requires n > 0
    ensures n <= 2 ==> Built(n)[2 * n - 2] == Chain(0, n)
    ensures n >= 3 ==> Built(n)[2 * n - 2] == Wrap(0, Nil)
  {
    if n == 2 {
      assert Chain(0, 2) == Wrap(0, Wrap(1, Empty));
    }
  }

  /** With one or two middlewares the pipeline as written runs them in
      order. */
  lemma AtMostTwoRunInOrder(ms: seq<Middleware>, p: EmailPipeline)
    requires 1 <= |ms| <= 2
    ensures Run(Built(|ms|)[2 * |ms| - 2], ms, p) == Sequence(ms, p)
  {
    StartHandlerOfBuilt(|ms|);
    ChainRunsInOrder(ms, 0, p);
    assert ms[0..] == ms;
  }

  /** With three or more, only the first middleware runs: it stops the
      pipeline itself, or its call to next is a call on nil. */
  lemma ThirdMiddlewareCutsTheChain(ms: seq<Middleware>, p: EmailPipeline)
    requires |ms| >= 3
    ensures var o := Run(Built(|ms|)[2 * |ms| - 2], ms, p);
            && (ms[0](p).Stop? ==> o == Failed(ms[0](p).error, ms[0](p).pipeline))
            && (ms[0](p).Continue? ==> o == NilHandlerCall(ms[0](p).pipeline))
  {
    StartHandlerOfBuilt(|ms|);
  }

  /** With the chained loop every configured middleware runs, in order. */
  lemma ChainedRunsAll(ms: seq<Middleware>, p: EmailPipeline)
    ensures Run(Chain(0, |ms|), ms, p) == Sequence(ms, p)
  {
    ChainRunsInOrder(ms, 0, p);
    assert ms[0..] == ms;
  }
}
