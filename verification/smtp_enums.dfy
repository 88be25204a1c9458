/** The command verbs of the SMTP front end and their prefix match
    (email_ms/smtp/enums.go; session.go and client.go repeat the same
    declarations). */
module SmtpEnums {
  const KB: nat := 1024
  const MB: nat := 1024 * 1024

  /** A command is the byte string a client line must start with. */
  type Command = string

  const CmdHelo: Command := "HELO"
  const CmdEhlo: Command := "EHLO"
  const CmdHelp: Command := "HELP"
  const CmdMail: Command := "MAIL FROM:"
  const CmdRcpt: Command := "RCPT TO:"
  const CmdRset: Command := "RSET"
  const CmdVrfy: Command := "VRFY"
  const CmdNoop: Command := "NOOP"
  const CmdQuit: Command := "QUIT"
  const CmdData: Command := "DATA"
  const CmdStartTls: Command := "STARTTLS"

  /** Every declared command, in declaration order. */
  const Commands: seq<Command> :=
    [CmdHelo, CmdEhlo, CmdHelp, CmdMail, CmdRcpt, CmdRset, CmdVrfy, CmdNoop, CmdQuit, CmdData, CmdStartTls]

  /** command.match: a line shorter than the command never matches;
      otherwise its first bytes must equal the command, byte for byte. */
  function Match(c: Command, input: string): (b: bool)
    ensures |input| < |c| ==> !b
    ensures b <==> c <= input
  {
    if |input| < |c| then false else input[..|c|] == c
  }

  /** What follows the verb does not matter. */
  lemma TrailingArgumentsIgnored(c: Command, rest: string)
    ensures Match(c, c + rest)
  {
    assert (c + rest)[..|c|] == c;
  }

  /** Matching is byte-exact, so a lower-case verb is not recognised. */
  lemma MatchIsCaseSensitive()
    ensures !Match(CmdHelo, "helo example.com")
    ensures !Match(CmdQuit, "quit")
  {
    assert "helo example.com"[0] != CmdHelo[0];
    assert "quit"[0] != CmdQuit[0];
  }

  /** The position of the command whose first four bytes are h. */
  function HeadIndex(h: string): int
  {
    if h == "HELO" then 0 else if h == "EHLO" then 1 else if h == "HELP" then 2
    else if h == "MAIL" then 3 else if h == "RCPT" then 4 else if h == "RSET" then 5
    else if h == "VRFY" then 6 else if h == "NOOP" then 7 else if h == "QUIT" then 8
    else if h == "DATA" then 9 else if h == "STAR" then 10 else -1
  }

  /** No command is a prefix of another one: their first four bytes already
      tell them apart. */
  lemma {:induction false} CommandsArePrefixFree(i: nat, j: nat)
    requires i < |Commands| && j < |Commands| && i != j
    ensures !(Commands[i] <= Commands[j])
  {
    forall k | 0 <= k < |Commands|
      ensures |Commands[k]| >= 4 && HeadIndex(Commands[k][..4]) == k
    {
      if k == 0 {
        assert Commands[k][..4] == "HELO";
      } else if k == 1 {
        assert Commands[k][..4] == "EHLO";
      } else if k == 2 {
        assert Commands[k][..4] == "HELP";
      } else if k == 3 {
        assert Commands[k][..4] == "MAIL";
      } else if k == 4 {
        assert Commands[k][..4] == "RCPT";
      } else if k == 5 {
        assert Commands[k][..4] == "RSET";
      } else if k == 6 {
        assert Commands[k][..4] == "VRFY";
      } else if k == 7 {
        assert Commands[k][..4] == "NOOP";
      } else if k == 8 {
        assert Commands[k][..4] == "QUIT";
      } else if k == 9 {
        assert Commands[k][..4] == "DATA";
      } else {
        assert Commands[k][..4] == "STAR";
      }
    }
    var a, b := Commands[i], Commands[j];
    assert a[..4] != b[..4];
  }

  /** Hence at most one command matches any line. */
  lemma AtMostOneMatch(line: string, i: nat, j: nat)
    requires i < |Commands| && j < |Commands|
    requires Match(Commands[i], line) && Match(Commands[j], line)
    ensures i == j
  {
    if i != j {
      var a, b := Commands[i], Commands[j];
      if |a| <= |b| {
        assert a == line[..|a|] == b[..|a|];
        CommandsArePrefixFree(i, j);
      } else {
        assert b == line[..|b|] == a[..|b|];
        CommandsArePrefixFree(j, i);
      }
    }
  }
}
