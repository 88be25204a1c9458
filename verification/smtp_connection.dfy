/** The connection adapter of the SMTP front end (email_ms/smtp/connection.go).
    The socket is a script: the bytes the buffered reader can still deliver
    and how that reader ends, the successive results of raw reads, and
    whether writes fail.  Flushed output accumulates in `sent`, and every
    deadline set on the socket is logged as the duration it was set to. */
module SmtpConnection {
  import opened Outcomes
  import SmtpEnums
  import Address

  /** How a read fails: io.EOF or any other error. */
  datatype ReadFailure = EndOfStream | Failure(message: string)

  /** The result of one raw read: some bytes, or a failure.  An exhausted
      script reads as EndOfStream. */
  datatype ReadEvent = Chunk(data: string) | Failed(failure: ReadFailure)

  /** An argument of AddBuffer: a string, a byte slice, or a value of another
      dynamic type. */
  datatype Arg = Str(s: string) | Octets(b: string) | Unsupported(typeName: string)

  /** The error Go reports when writing to a closed socket. */
  const ClosedMessage: string := "use of closed network connection"

  /** maxEnvelopeDataSize: 25 MB. */
  const MaxEnvelope: nat := 25 * SmtpEnums.MB

  /** The bytes the raw reads deliver before the first failure. */
  function Delivered(raw: seq<ReadEvent>): string
  {
    if raw == [] || raw[0].Failed? then "" else raw[0].data + Delivered(raw[1..])
  }

  /** What AddBuffer leaves in the write buffer: each string or byte slice
      followed by CRLF, up to the first argument of another type. */
  function Frame(items: seq<Arg>): string
  {
    if items == [] then ""
    else match items[0]
      case Str(s) => s + "\r\n" + Frame(items[1..])
      case Octets(b) => b + "\r\n" + Frame(items[1..])
      case Unsupported(_) => ""
  }

  predicate Supported(items: seq<Arg>)
  {
    forall i :: 0 <= i < |items| ==> !items[i].Unsupported?
  }

  /** Framing a supported list and then more is framing the two in turn. */
  lemma {:induction false} FrameAppend(a: seq<Arg>, b: seq<Arg>)
    requires Supported(a)
    ensures Frame(a + b) == Frame(a) + Frame(b)
  {
    if a == [] {
      assert a + b == b;
    } else {
      assert (a + b)[1..] == a[1..] + b;
      assert (a + b)[0] == a[0];
      assert Supported(a[1..]) by {
        forall i | 0 <= i < |a[1..]| ensures !a[1..][i].Unsupported? {
          assert a[1..][i] == a[i + 1];
        }
      }
      FrameAppend(a[1..], b);
    }
  }

  /** Everything from the first unsupported argument on is dropped. */
  lemma {:induction false} FrameStopsAtUnsupported(a: seq<Arg>, t: string, b: seq<Arg>)
    requires Supported(a)
    ensures Frame(a + [Unsupported(t)] + b) == Frame(a)
  {
    if a == [] {
      assert a + [Unsupported(t)] + b == [Unsupported(t)] + b;
    } else {
      assert (a + [Unsupported(t)] + b)[1..] == a[1..] + [Unsupported(t)] + b;
      FrameStopsAtUnsupported(a[1..], t, b);
    }
  }

  /** Every trailing '\r' removed (bytes.TrimRight with cutset "\r"). */
  function TrimRightCr(s: string): (r: string)
    ensures r <= s
    ensures r == "" || r[|r| - 1] != '\r'
    ensures forall i :: |r| <= i < |s| ==> s[i] == '\r'
  {
    if s != [] && s[|s| - 1] == '\r' then TrimRightCr(s[..|s| - 1]) else s
  }

  /** The line ReadLine yields from buffered input holding a newline, and
      the input it leaves. */
  function FirstLine(s: string): string
    requires '\n' in s
  {
    TrimRightCr(s[..Address.IndexOf(s, '\n')])
  }

  function AfterFirstLine(s: string): string
    requires '\n' in s
  {
    s[Address.IndexOf(s, '\n') + 1..]
  }

  /** The window a raw read may fill: from the current size up to one MB
      further, but never past the 25 MB buffer. */
  function Window(size: nat): (w: nat)
    requires size <= MaxEnvelope
    ensures w <= SmtpEnums.MB
    ensures size + w <= MaxEnvelope
    ensures w == SmtpEnums.MB || size + w == MaxEnvelope
    ensures w == 0 <==> size == MaxEnvelope
  {
    if size + SmtpEnums.MB > MaxEnvelope then MaxEnvelope - size else SmtpEnums.MB
  }

  /** One raw read into a window of w bytes: what it got and what is left of
      the script.  An empty window reads nothing and consumes nothing; a
      chunk longer than the window leaves its tail for the next read. */
  datatype RawRead = Got(bytes: string, rest: seq<ReadEvent>) | Lost(failure: ReadFailure, rest: seq<ReadEvent>)

  function ReadRaw(raw: seq<ReadEvent>, w: nat): (r: RawRead)
    ensures r.Got? ==> |r.bytes| <= w && Delivered(raw) == r.bytes + Delivered(r.rest)
  {
    if w == 0 then Got("", raw)
    else if raw == [] then Lost(EndOfStream, [])
    else match raw[0]
      case Failed(f) => Lost(f, raw[1..])
      case Chunk(d) =>
        if |d| <= w then Got(d, raw[1..])
        else
          assert d == d[..w] + d[w..];
          Got(d[..w], [Chunk(d[w..])] + raw[1..])
  }

  /** The result of ReadEnvelope: the envelope bytes, a read failure, the
      "too big" error, or the slice-bounds panic of a buffer shorter than 3. */
  datatype EnvelopeOutcome = Envelope(data: string) | ReadFailed(failure: ReadFailure) | TooBig | SlicePanic

  /** The bytes at size-3 and size-2 are '.' and '\r'. */
  predicate HasMarker(data: string)
  {
    |data| >= 3 && data[|data| - 3] == '.' && data[|data| - 2] == '\r'
  }

  /** The envelope reader's loop as a function of the script and of the
      bytes gathered so far: the outcome and what is left of the script. */
  function ReadFrom(raw: seq<ReadEvent>, data: string): (r: (EnvelopeOutcome, seq<ReadEvent>))
    requires |data| <= MaxEnvelope
    ensures r.0.Envelope? ==> HasMarker(r.0.data) && |r.0.data| <= MaxEnvelope && data <= r.0.data
    decreases MaxEnvelope - |data|
  {
    match ReadRaw(raw, Window(|data|))
    case Lost(f, rest) => (ReadFailed(f), rest)
    case Got(got, rest) =>
      var data' := data + got;
      if |data'| < 3 then (SlicePanic, rest)
      else if HasMarker(data') then (Envelope(data'), rest)
      else if got == "" then (TooBig, rest)
      else ReadFrom(rest, data')
  }

  /** An envelope is returned only with the marker, within 25 MB, and it is
      exactly the bytes the socket delivered, with nothing skipped. */
  lemma {:induction false} EnvelopeIsDeliveredPrefix(raw: seq<ReadEvent>, data: string)
    requires |data| <= MaxEnvelope
    ensures ReadFrom(raw, data).0.Envelope? ==>
              var d := ReadFrom(raw, data).0.data;
              HasMarker(d) && |d| <= MaxEnvelope && data <= d
              && data + Delivered(raw) == d + Delivered(ReadFrom(raw, data).1)
    decreases MaxEnvelope - |data|
  {
    var r := ReadRaw(raw, Window(|data|));
    if r.Got? {
      var data' := data + r.bytes;
      if |data'| >= 3 && !HasMarker(data') && r.bytes != "" {
        assert ReadFrom(raw, data) == ReadFrom(r.rest, data');
        EnvelopeIsDeliveredPrefix(r.rest, data');
        var tail := Delivered(r.rest);
        assert Delivered(raw) == r.bytes + tail;
        assert data + (r.bytes + tail) == (data + r.bytes) + tail;
      } else {
        assert ReadFrom(raw, data).0.Envelope? ==> ReadFrom(raw, data) == (Envelope(data'), r.rest);
      }
    }
  }

  /** A zero-filled string. */
  function Zeros(n: nat): (z: string)
    ensures |z| == n && forall i :: 0 <= i < n ==> z[i] == '\0'
  {
    seq(n, _ => '\0')
  }

  /** A stream of k zero bytes, read on top of n zero bytes already
      gathered, ends in "too big". */
  predicate ZerosTooBig(n: nat, k: nat)
    requires n <= MaxEnvelope
  {
    ReadFrom([Chunk(Zeros(k))], Zeros(n)).0 == TooBig
  }

  /** Zero bytes never form the marker, so a stream of more zeros than the
      buffer holds ends in "too big" once the buffer is full. */
  lemma {:induction false} ZerosOverflow(n: nat, k: nat)
    requires n <= MaxEnvelope && n + k > MaxEnvelope
    requires n == 0 || n >= 3
    ensures ZerosTooBig(n, k)
    decreases MaxEnvelope - n
  {
    var w := Window(n);
    if w > 0 {
      ZerosOverflow(n + w, k - w);
      ZerosStep(n, k, w);
    } else {
      ZerosFull(n, k);
    }
  }

  /** A full buffer of zeros reads nothing more and is too big. */
  lemma ZerosFull(n: nat, k: nat)
    requires n == MaxEnvelope
    ensures ZerosTooBig(n, k)
  {
    assert Window(n) == 0;
    assert Zeros(n) + "" == Zeros(n);
    assert !HasMarker(Zeros(n));
  }

  /** One read of a zero stream into a window that is not empty. */
  lemma ZerosStep(n: nat, k: nat, w: nat)
    requires n <= MaxEnvelope && n + k > MaxEnvelope
    requires n == 0 || n >= 3
    requires w == Window(n) && w > 0
    requires w <= k && ZerosTooBig(n + w, k - w)
    ensures ZerosTooBig(n, k)
  {
    assert Zeros(k)[..w] == Zeros(w);
    assert Zeros(k)[w..] == Zeros(k - w);
    assert ReadRaw([Chunk(Zeros(k))], w) == Got(Zeros(w), [Chunk(Zeros(k - w))]);
    assert Zeros(n) + Zeros(w) == Zeros(n + w);
    assert !HasMarker(Zeros(n + w));
  }

  /** The "envelope too big" case: one byte more than the buffer holds. */
  lemma TooBigEnvelope()
    ensures ReadFrom([Chunk(Zeros(MaxEnvelope + 1))], "").0 == TooBig
  {
    ZerosOverflow(0, MaxEnvelope + 1);
  }

  /** The "all ok" case: a message ending in CRLF "." CRLF. */
  lemma SmallEnvelope()
    ensures ReadFrom([Chunk("hello world\r\n.\r\n")], "").0 == Envelope("hello world\r\n.\r\n")
  {
  }

  /** Only two bytes are inspected: any read ending in ".\r" and one more
      byte ends the envelope, though it lacks the CRLF "." CRLF sequence of
      section 4.1.1.4 of RFC 5321. */
  lemma MarkerIsTwoBytes()
    ensures ReadFrom([Chunk("ab.\rX")], "").0 == Envelope("ab.\rX")
  {
  }

  /** A first read of fewer than three bytes indexes before the buffer. */
  lemma ShortReadPanics()
    ensures ReadFrom([Chunk("ab")], "").0 == SlicePanic
  {
  }

  class ConnectionAdapter {
    /** Bytes the buffered reader can still deliver, and how it fails once
        they run out without a delimiter. */
    var inbound: string
    const inboundEnd: ReadFailure
    /** The successive results of reads on the socket itself. */
    var raw: seq<ReadEvent>
    /** The write buffer and everything flushed so far. */
    var bufout: string
    var sent: string
    /** The error a write fails with, if the peer is gone. */
    const writeFailure: Option<string>
    var tls: bool
    var closed: bool
    /** Whether the service context has been cancelled. */
    const ctxDone: bool
    /** Every deadline set on the socket, as the duration it was set to. */
    var deadlines: seq<int>
    const timeout: int
    const remoteAddr: string

    constructor (ctxDone: bool, inbound: string, inboundEnd: ReadFailure, raw: seq<ReadEvent>,
                 writeFailure: Option<string>, remoteAddr: string, timeout: int)
      ensures this.ctxDone == ctxDone && this.inbound == inbound && this.inboundEnd == inboundEnd
      ensures this.raw == raw && this.writeFailure == writeFailure && this.remoteAddr == remoteAddr
      ensures this.timeout == timeout
      ensures bufout == "" && sent == "" && !tls && !closed && deadlines == []
    {
      this.ctxDone := ctxDone;
      this.inbound := inbound;
      this.inboundEnd := inboundEnd;
      this.raw := raw;
      this.writeFailure := writeFailure;
      this.remoteAddr := remoteAddr;
      this.timeout := timeout;
      bufout := "";
      sent := "";
      tls := false;
      closed := false;
      deadlines := [];
    }

    /** SetDeadline: the deadline becomes now plus d. */
    method SetDeadline(d: int)
      modifies this
      ensures deadlines == old(deadlines) + [d]
      ensures inbound == old(inbound) && raw == old(raw) && bufout == old(bufout) && sent == old(sent)
      ensures tls == old(tls) && closed == old(closed)
    {
      deadlines := deadlines + [d];
    }

    /** resetTimeout: the deadline is refreshed unless the context is done. */
    method ResetTimeout()
      modifies this
      ensures deadlines == old(deadlines) + (if ctxDone then [] else [timeout])
      ensures inbound == old(inbound) && raw == old(raw) && bufout == old(bufout) && sent == old(sent)
      ensures tls == old(tls) && closed == old(closed)
    {
      if !ctxDone {
        SetDeadline(timeout);
      }
    }

    /** UpgradeTLS: the handshake's outcome is an input.  The deadline is set
        before the handshake; TLS is switched on only when it succeeds. */
    method UpgradeTLS(handshake: Option<string>) returns (err: Option<string>)
      modifies this
      ensures err == handshake
      ensures tls == (old(tls) || handshake.None?)
      ensures deadlines == old(deadlines) + [timeout]
      ensures inbound == old(inbound) && raw == old(raw) && bufout == old(bufout) && sent == old(sent)
      ensures closed == old(closed)
    {
      SetDeadline(timeout);
      if handshake.Some? {
        return handshake;
      }
      tls := true;
      return None;
    }

    /** ReadBytes: the bytes before the first delimiter, which is consumed and
        dropped; the deadline is refreshed only on success.  Without a
        delimiter the reader hands back its failure, having consumed what
        was left. */
    method ReadBytes(delim: char) returns (r: Result<string, ReadFailure>)
      modifies this
      ensures r.Ok? <==> delim in old(inbound)
      ensures r.Ok? ==> old(inbound) == r.value + [delim] + inbound && delim !in r.value
      ensures r.Ok? ==> |r.value| == Address.IndexOf(old(inbound), delim)
      ensures r.Ok? ==> deadlines == old(deadlines) + (if ctxDone then [] else [timeout])
      ensures r.Err? ==> r.error == inboundEnd && inbound == "" && deadlines == old(deadlines)
      ensures raw == old(raw) && bufout == old(bufout) && sent == old(sent) && tls == old(tls) && closed == old(closed)
    {
      if delim !in inbound {
        inbound := "";
        return Err(inboundEnd);
      }
      var i := Address.IndexOf(inbound, delim);
      r := Ok(inbound[..i]);
      assert inbound == inbound[..i] + [delim] + inbound[i + 1..];
      inbound := inbound[i + 1..];
      ResetTimeout();
    }

    /** ReadLine: ReadBytes('\n') with the trailing carriage returns cut. */
    method ReadLine() returns (r: Result<string, ReadFailure>)
      modifies this
      ensures r.Ok? <==> '\n' in old(inbound)
      ensures r.Ok? ==> var n := Address.IndexOf(old(inbound), '\n');
                        && r.value <= old(inbound) && |r.value| <= n
                        && (forall i :: |r.value| <= i < n ==> old(inbound)[i] == '\r')
                        && (r.value == "" || r.value[|r.value| - 1] != '\r')
                        && inbound == AfterFirstLine(old(inbound))
                        && r.value == FirstLine(old(inbound))
      ensures r.Ok? ==> deadlines == old(deadlines) + (if ctxDone then [] else [timeout])
      ensures r.Err? ==> r.error == inboundEnd && inbound == "" && deadlines == old(deadlines)
      ensures raw == old(raw) && bufout == old(bufout) && sent == old(sent) && tls == old(tls) && closed == old(closed)
    {
      var b := ReadBytes('\n');
      if b.Err? {
        return b;
      }
      ghost var n := Address.IndexOf(old(inbound), '\n');
      assert old(inbound)[..n] == b.value;
      assert inbound == old(inbound)[n + 1..];
      return Ok(TrimRightCr(b.value));
    }

    /** ReadEnvelope: reads the socket itself into a 25 MB buffer, window by
        window, until the marker; io.EOF is returned as is, any other read
        error closes the connection first. */
    method ReadEnvelope() returns (r: EnvelopeOutcome)
      modifies this
      ensures (r, raw) == ReadFrom(old(raw), "")
      ensures closed == (old(closed) || (r.ReadFailed? && r.failure.Failure?))
      ensures inbound == old(inbound) && bufout == old(bufout) && sent == old(sent)
      ensures tls == old(tls) && deadlines == old(deadlines)
    {
      var data := "";
      while true
        invariant |data| <= MaxEnvelope
        invariant ReadFrom(old(raw), "") == ReadFrom(raw, data)
        invariant closed == old(closed)
        invariant inbound == old(inbound) && bufout == old(bufout) && sent == old(sent)
        invariant tls == old(tls) && deadlines == old(deadlines)
        decreases MaxEnvelope - |data|
      {
        var read := ReadRaw(raw, Window(|data|));
        raw := read.rest;
        if read.Lost? {
          if read.failure.Failure? {
            Close();
          }
          return ReadFailed(read.failure);
        }
        var got := read.bytes;
        data := data + got;
        if |data| < 3 {
          return SlicePanic;
        }
        if HasMarker(data) {
          return Envelope(data);
        }
        if got == "" {
          return TooBig;
        }
      }
    }

    /** AddBuffer: the write buffer is emptied, then each argument is written
        followed by CRLF, stopping at the first unsupported one. */
    method AddBuffer(items: seq<Arg>)
      modifies this
      ensures bufout == Frame(items)
      ensures inbound == old(inbound) && raw == old(raw) && sent == old(sent)
      ensures tls == old(tls) && closed == old(closed) && deadlines == old(deadlines)
    {
      bufout := "";
      for i := 0 to |items|
        invariant bufout + Frame(items[i..]) == Frame(items)
        invariant inbound == old(inbound) && raw == old(raw) && sent == old(sent)
        invariant tls == old(tls) && closed == old(closed) && deadlines == old(deadlines)
      {
        match items[i]
        case Str(s) =>
          bufout := bufout + s + "\r\n";
        case Octets(b) =>
          bufout := bufout + b + "\r\n";
        case Unsupported(_) =>
          return;
      }
    }

    /** Flush: nothing happens when nothing is buffered; otherwise the
        deadline is refreshed and the buffer is written out, or kept if the
        write fails. */
    method Flush() returns (err: Option<string>)
      modifies this
      ensures old(bufout) == "" ==> err == None && deadlines == old(deadlines) && sent == old(sent)
      ensures old(bufout) != "" ==> deadlines == old(deadlines) + (if ctxDone then [] else [timeout])
      ensures old(bufout) != "" && !closed && writeFailure.None? ==> err == None && sent == old(sent) + old(bufout)
      ensures old(bufout) != "" && closed ==> err == Some(ClosedMessage)
      ensures old(bufout) != "" && !closed && writeFailure.Some? ==> err == writeFailure
      ensures err.Some? ==> sent == old(sent) && bufout == old(bufout)
      ensures err.None? ==> bufout == ""
      ensures inbound == old(inbound) && raw == old(raw) && tls == old(tls) && closed == old(closed)
    {
      if bufout == "" {
        return None;
      }
      ResetTimeout();
      if closed {
        return Some(ClosedMessage);
      }
      if writeFailure.Some? {
        return writeFailure;
      }
      sent := sent + bufout;
      bufout := "";
      return None;
    }

    /** Close: closes the socket. */
    method Close()
      modifies this
      ensures closed
      ensures inbound == old(inbound) && raw == old(raw) && bufout == old(bufout) && sent == old(sent)
      ensures tls == old(tls) && deadlines == old(deadlines)
    {
      closed := true;
    }
  }

  /** The socket a connection is opened over. */
  datatype Socket = Socket(inbound: string, inboundEnd: ReadFailure, raw: seq<ReadEvent>,
                           writeFailure: Option<string>, remoteAddr: string)

  /** NewConnection: with a TLS configuration the handshake must succeed, or
      no connection is returned; then the deadline is set. */
  method NewConnection(ctxDone: bool, s: Socket, timeout: int, withTls: bool, handshake: Option<string>)
    returns (c: ConnectionAdapter?, err: Option<string>)
    ensures (c == null) <==> (withTls && handshake.Some?)
    ensures c == null ==> err == handshake
    ensures c != null ==> err == None && fresh(c)
    ensures c != null ==> c.inbound == s.inbound && c.raw == s.raw && c.bufout == "" && c.sent == ""
    ensures c != null ==> c.tls == withTls && !c.closed && c.ctxDone == ctxDone && c.timeout == timeout
    ensures c != null ==> c.deadlines == (if withTls then [timeout, timeout] else [timeout])
  {
    c := new ConnectionAdapter(ctxDone, s.inbound, s.inboundEnd, s.raw, s.writeFailure, s.remoteAddr, timeout);
    if withTls {
      err := c.UpgradeTLS(handshake);
      if err.Some? {
        return null, err;
      }
    }
    c.SetDeadline(timeout);
    return c, None;
  }

  /** The output test: AddBuffer discards what an earlier AddBuffer left
      unflushed, so only the second call's lines go out. */
  method AddBufferResetsOutput() returns (wire: string)
    ensures wire == "hello\r\nworld\r\n"
  {
    var c := new ConnectionAdapter(false, "", EndOfStream, [], None, "", 3600);
    c.AddBuffer([Octets("world")]);
    c.AddBuffer([Str("hello"), Octets("world")]);
    var err := c.Flush();
    wire := c.sent;
  }

  /** The line test: "test lalala\r\n" yields "test lalala" and the bytes
      after it stay buffered. */
  method ReadLineKeepsTheRest() returns (line: Result<string, ReadFailure>, rest: string)
    ensures line == Ok("test lalala") && rest == "sa6d4as\n6d54a32"
  {
    var s := "test lalala\r" + "\n" + "sa6d4as\n6d54a32";
    LineTest(s);
    var c := new ConnectionAdapter(false, s, EndOfStream, [], None, "", 3600);
    line := c.ReadLine();
    rest := c.inbound;
  }

  /** Where the first line of the line test ends, and what follows it. */
  lemma LineTest(s: string)
    requires s == "test lalala\r" + "\n" + "sa6d4as\n6d54a32"
    ensures '\n' in s && FirstLine(s) == "test lalala" && AfterFirstLine(s) == "sa6d4as\n6d54a32"
  {
    LineTestSlices(s);
    LineTestFirstNewline(s);
    LineTestTrim();
  }

  lemma LineTestSlices(s: string)
    requires s == "test lalala\r" + "\n" + "sa6d4as\n6d54a32"
    ensures s[..12] == "test lalala\r" && s[13..] == "sa6d4as\n6d54a32"
  {
    assert |"test lalala\r"| == 12;
  }

  lemma LineTestTrim()
    ensures TrimRightCr("test lalala\r") == "test lalala"
  {
    assert "test lalala\r"[..11] == "test lalala";
  }

  lemma LineTestFirstNewline(s: string)
    requires s == "test lalala\r" + "\n" + "sa6d4as\n6d54a32"
    ensures Address.IndexOf(s, '\n') == 12
  {
    assert s[12] == '\n';
    assert s[..12] == "test lalala\r";
    Address.IndexOfIsFirst(s, '\n', 12);
  }

  /** The delimiter test: ReadBytes('\t') over "one\ttwo" yields "one". */
  method ReadBytesStopsAtDelimiter() returns (got: Result<string, ReadFailure>)
    ensures got == Ok("one")
  {
    var c := new ConnectionAdapter(false, "one\ttwo", EndOfStream, [], None, "", 3600);
    assert Address.IndexOf("one\ttwo", '\t') == 3 by {
      assert "one\ttwo"[1..] == "ne\ttwo" && "ne\ttwo"[1..] == "e\ttwo" && "e\ttwo"[1..] == "\ttwo";
    }
    got := c.ReadBytes('\t');
    assert "one\ttwo" == got.value + "\t" + c.inbound;
    assert got.value == "one\ttwo"[..3] == "one";
  }
}
