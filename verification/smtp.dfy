/**
 * The SMTP exchange of `send_email`: which commands are issued, in which
 * order, for a given port and set of credentials, and how the session on
 * the `server` object goes when the server refuses one of them.
 *
 * The server's replies are not modelled byte by byte: a connection holds
 * a fixed predicate `accepts` saying which commands the server accepts.
 * A refused command ends the session, as the exception `smtplib` raises
 * on a failed connection, STARTTLS, LOGIN, send or QUIT does.
 */
module Smtp {

  /** The message `send_email` assembles: sender, recipient, subject, HTML body. */
  datatype Message = Message(sender: string, recipient: string, subject: string, html: string)

  datatype Command =
    | Connect(host: string, port: int)
    | SetDebugLevel(level: int)
    | Ehlo
    | StartTls
    | Login(user: string, password: string)
    | SendMessage(msg: Message)
    | Quit

  /** The port on which `send_email` upgrades a plain connection with STARTTLS. */
  const SubmissionPort := 587
  /** The port on which `send_email` turns on debugging and brackets STARTTLS with EHLO. */
  const SmtpsPort := 465

  /**
   * What `send_email` issues between connecting and sending: STARTTLS on
   * port 587; debug level 1, EHLO, STARTTLS, EHLO on port 465; then LOGIN
   * when both the address and the password are non-empty.
   */
  function HandshakePlan(port: int, email: string, password: string): (plan: seq<Command>)
    ensures |plan| <= 5
    ensures forall i :: 0 <= i < |plan| ==> !plan[i].Connect? && !plan[i].SendMessage? && !plan[i].Quit?
  {
    (if port == SubmissionPort then [StartTls] else [])
    + (if port == SmtpsPort then [SetDebugLevel(1), Ehlo, StartTls, Ehlo] else [])
    + (if email != "" && password != "" then [Login(email, password)] else [])
  }

  /** Some element of `plan` is a LOGIN. */
  predicate HasLogin(plan: seq<Command>) {
    exists i :: 0 <= i < |plan| && plan[i].Login?
  }

  /**
   * STARTTLS is issued exactly on ports 587 and 465, EHLO and the debug
   * level only on 465; LOGIN is issued exactly when both credentials are
   * non-empty, with those credentials, as the last step and after
   * STARTTLS whenever STARTTLS is issued. On any other port with missing
   * credentials nothing is issued before the message.
   */
  lemma HandshakePlanSpec(port: int, email: string, password: string)
    ensures var plan := HandshakePlan(port, email, password);
      && (StartTls in plan <==> port == SubmissionPort || port == SmtpsPort)
      && (Ehlo in plan <==> port == SmtpsPort)
      && (SetDebugLevel(1) in plan <==> port == SmtpsPort)
      && (HasLogin(plan) <==> email != "" && password != "")
      && (HasLogin(plan) ==> plan[|plan| - 1] == Login(email, password))
      && (forall i, j :: 0 <= i < |plan| && 0 <= j < |plan| && plan[i] == StartTls && plan[j].Login? ==> i < j)
      && (port != SubmissionPort && port != SmtpsPort && (email == "" || password == "") ==> plan == [])
  {
    var plan := HandshakePlan(port, email, password);
    var tls: seq<Command> := if port == SubmissionPort then [StartTls] else [];
    var ssl: seq<Command> := if port == SmtpsPort then [SetDebugLevel(1), Ehlo, StartTls, Ehlo] else [];
    var login: seq<Command> := if email != "" && password != "" then [Login(email, password)] else [];
    assert plan == tls + ssl + login;
    if email != "" && password != "" {
      assert plan[|plan| - 1].Login?;
    }
  }

  /** The two secure ports, written out. */
  lemma HandshakePlanPorts(email: string, password: string)
    requires email == "" || password == ""
    ensures HandshakePlan(SubmissionPort, email, password) == [StartTls]
    ensures HandshakePlan(SmtpsPort, email, password) == [SetDebugLevel(1), Ehlo, StartTls, Ehlo]
  {
  }

  // ---------------------------------------------------------------------
  // Running a session
  // ---------------------------------------------------------------------

  /** Setting the debug level is local to the client and never fails. */
  predicate Accepted(accepts: Command -> bool, c: Command) {
    c.SetDebugLevel? || accepts(c)
  }

  predicate AllAccepted(accepts: Command -> bool, cmds: seq<Command>) {
    forall i :: 0 <= i < |cmds| ==> Accepted(accepts, cmds[i])
  }

  /** The commands issued when each one raises on refusal: up to and including the first refused. */
  function Issued(accepts: Command -> bool, cmds: seq<Command>): (r: seq<Command>)
    ensures |r| <= |cmds| && r == cmds[..|r|]
  {
    if |cmds| == 0 then []
    else if Accepted(accepts, cmds[0]) then [cmds[0]] + Issued(accepts, cmds[1..])
    else [cmds[0]]
  }

  /**
   * Every command is issued when all are accepted; otherwise the issued
   * commands stop right at the first refused one.
   */
  lemma {:induction false} IssuedSpec(accepts: Command -> bool, cmds: seq<Command>)
    ensures AllAccepted(accepts, cmds) ==> Issued(accepts, cmds) == cmds
    ensures !AllAccepted(accepts, cmds) ==>
      var r := Issued(accepts, cmds);
      && |r| >= 1
      && AllAccepted(accepts, r[..|r| - 1])
      && !Accepted(accepts, r[|r| - 1])
    decreases |cmds|
  {
    if |cmds| > 0 {
      IssuedSpec(accepts, cmds[1..]);
      var r := Issued(accepts, cmds);
      if Accepted(accepts, cmds[0]) {
        var rest := Issued(accepts, cmds[1..]);
        assert r == [cmds[0]] + rest;
        if AllAccepted(accepts, cmds[1..]) {
          assert cmds == [cmds[0]] + cmds[1..];
        } else {
          assert r[..|r| - 1] == [cmds[0]] + rest[..|rest| - 1];
          assert r[|r| - 1] == rest[|rest| - 1];
        }
      } else {
        assert r[..|r| - 1] == [];
      }
    }
  }

  /** The issued commands, read off from where the first refusal is. */
  lemma {:induction false} IssuedAt(accepts: Command -> bool, cmds: seq<Command>, k: nat)
    requires 0 < k <= |cmds|
    requires AllAccepted(accepts, cmds[..k - 1]) && !Accepted(accepts, cmds[k - 1])
    ensures Issued(accepts, cmds) == cmds[..k]
    decreases k
  {
    if k > 1 {
      assert Accepted(accepts, cmds[..k - 1][0]);
      assert cmds[1..][..k - 2] == cmds[..k - 1][1..];
      IssuedAt(accepts, cmds[1..], k - 1);
      assert cmds[..k] == [cmds[0]] + cmds[1..][..k - 1];
    }
  }

  /**
   * The `server` object of a session: the commands sent on it so far.
   * `accepts` stands for the server at the other end.
   */
  class SmtpConnection {
    var transcript: seq<Command>
    const accepts: Command -> bool

    constructor (accepts: Command -> bool)
      ensures transcript == [] && this.accepts == accepts
    {
      transcript := [];
      this.accepts := accepts;
    }

    /** Send one command; `ok` is false when `smtplib` would raise on it. */
    method Issue(c: Command) returns (ok: bool)
      modifies this
      ensures transcript == old(transcript) + [c]
      ensures ok == Accepted(accepts, c)
    {
      transcript := transcript + [c];
      ok := Accepted(accepts, c);
    }

    /** Issue `cmds` in order, stopping at the first refusal; `ok` tells whether all were accepted. */
    method IssueAll(cmds: seq<Command>) returns (ok: bool)
      modifies this
      ensures transcript == old(transcript) + Issued(accepts, cmds)
      ensures ok == AllAccepted(accepts, cmds)
    {
      ok := true;
      var i := 0;
      while i < |cmds| && ok
        invariant 0 <= i <= |cmds|
        invariant transcript == old(transcript) + cmds[..i]
        invariant ok ==> AllAccepted(accepts, cmds[..i])
        invariant !ok ==> i > 0 && AllAccepted(accepts, cmds[..i - 1]) && !Accepted(accepts, cmds[i - 1])
      {
        var accepted := Issue(cmds[i]);
        if !accepted {
          assert cmds[..i + 1][..i] == cmds[..i];
          ok := false;
        }
        assert cmds[..i + 1] == cmds[..i] + [cmds[i]];
        i := i + 1;
      }
      if ok {
        assert cmds[..i] == cmds;
        IssuedSpec(accepts, cmds);
      } else {
        IssuedAt(accepts, cmds, i);
        assert !AllAccepted(accepts, cmds) by {
          assert cmds[i - 1] == cmds[..i][i - 1];
        }
      }
    }

    /**
     * A `with` block whose first command opens the connection: on a
     * refused connection nothing more is sent; otherwise the rest up to
     * the first refusal, then QUIT on leaving the block.
     */
    method RunBlock(cmds: seq<Command>) returns (ok: bool)
      requires |cmds| > 0
      modifies this
      ensures transcript == old(transcript) + Issued(accepts, cmds)
        + (if Accepted(accepts, cmds[0]) then [Quit] else [])
      ensures ok == (AllAccepted(accepts, cmds) && Accepted(accepts, Quit))
    {
      AcceptedCons(accepts, cmds);
      var connected := Issue(cmds[0]);
      if !connected {
        return false;
      }
      var rest := IssueAll(cmds[1..]);
      var quit := Issue(Quit);
      ok := rest && quit;
    }
  }

  /** Connect, the handshake plan, then the message. */
  function SessionCommands(host: string, port: int, email: string, password: string, msg: Message): seq<Command> {
    [Connect(host, port)] + HandshakePlan(port, email, password) + [SendMessage(msg)]
  }

  /**
   * Everything sent on the connection by the `with smtplib.SMTP(...)`
   * block: the session's commands up to the first refusal, then the QUIT
   * the block sends on leaving, unless the connection itself failed. It
   * always opens with the connection, and ends with QUIT whenever that
   * connection was accepted.
   */
  function SessionTranscript(accepts: Command -> bool, host: string, port: int, email: string, password: string, msg: Message): (t: seq<Command>)
    ensures |t| >= 1 && t[0] == Connect(host, port)
    ensures !Accepted(accepts, Connect(host, port)) ==> t == [Connect(host, port)]
    ensures Accepted(accepts, Connect(host, port)) ==> |t| >= 2 && t[|t| - 1] == Quit
  {
    var cmds := SessionCommands(host, port, email, password, msg);
    SessionCommandsSplit(host, port, email, password, msg);
    Issued(accepts, cmds) + (if Accepted(accepts, Connect(host, port)) then [Quit] else [])
  }

  /** The block completes without raising: every command and the closing QUIT are accepted. */
  predicate SessionSucceeds(accepts: Command -> bool, host: string, port: int, email: string, password: string, msg: Message) {
    AllAccepted(accepts, SessionCommands(host, port, email, password, msg)) && Accepted(accepts, Quit)
  }

  /** The `with smtplib.SMTP(host, port) as server:` block of `send_email`. */
  method RunSession(conn: SmtpConnection, host: string, port: int, email: string, password: string, msg: Message)
    returns (ok: bool)
    modifies conn
    ensures conn.transcript == old(conn.transcript) + SessionTranscript(conn.accepts, host, port, email, password, msg)
    ensures ok == SessionSucceeds(conn.accepts, host, port, email, password, msg)
  {
    SessionCommandsSplit(host, port, email, password, msg);
    ok := conn.RunBlock(SessionCommands(host, port, email, password, msg));
  }

  lemma SessionCommandsSplit(host: string, port: int, email: string, password: string, msg: Message)
    ensures var cmds := SessionCommands(host, port, email, password, msg);
      && |cmds| >= 2
      && cmds[0] == Connect(host, port)
      && cmds[1..] == HandshakePlan(port, email, password) + [SendMessage(msg)]
  {
  }

  /** A command list is accepted when its head and its tail are; the issued ones follow the head. */
  lemma AcceptedCons(accepts: Command -> bool, cmds: seq<Command>)
    requires |cmds| > 0
    ensures AllAccepted(accepts, cmds) <==> Accepted(accepts, cmds[0]) && AllAccepted(accepts, cmds[1..])
    ensures Issued(accepts, cmds) == if Accepted(accepts, cmds[0]) then [cmds[0]] + Issued(accepts, cmds[1..]) else [cmds[0]]
  {
    if Accepted(accepts, cmds[0]) && AllAccepted(accepts, cmds[1..]) {
      forall i | 1 <= i < |cmds|
        ensures Accepted(accepts, cmds[i])
      {
        assert cmds[i] == cmds[1..][i - 1];
      }
    }
  }

  /**
   * When the whole session is accepted, the connection sees exactly:
   * connect, the handshake plan, the message once, and QUIT; the message
   * is sent after any LOGIN.
   */
  lemma SessionTranscriptAccepted(accepts: Command -> bool, host: string, port: int, email: string, password: string, msg: Message)
    requires SessionSucceeds(accepts, host, port, email, password, msg)
    ensures SessionTranscript(accepts, host, port, email, password, msg)
      == [Connect(host, port)] + HandshakePlan(port, email, password) + [SendMessage(msg), Quit]
  {
    var cmds := SessionCommands(host, port, email, password, msg);
    IssuedSpec(accepts, cmds);
    assert Accepted(accepts, cmds[0]);
  }

  /** A session that succeeds has delivered the message. */
  lemma SessionDeliversMessage(accepts: Command -> bool, host: string, port: int, email: string, password: string, msg: Message)
    requires SessionSucceeds(accepts, host, port, email, password, msg)
    ensures SendMessage(msg) in SessionTranscript(accepts, host, port, email, password, msg)
  {
    SessionTranscriptAccepted(accepts, host, port, email, password, msg);
    var t := SessionTranscript(accepts, host, port, email, password, msg);
    assert t[1 + |HandshakePlan(port, email, password)|] == SendMessage(msg);
  }

  /** A refused command ends the session: nothing after it but QUIT, and no message unless it was the refused one. */
  lemma SessionTranscriptRefused(accepts: Command -> bool, host: string, port: int, email: string, password: string, msg: Message)
    requires !AllAccepted(accepts, SessionCommands(host, port, email, password, msg))
    ensures var r := Issued(accepts, SessionCommands(host, port, email, password, msg));
      && !SessionSucceeds(accepts, host, port, email, password, msg)
      && !Accepted(accepts, r[|r| - 1])
      && (forall i :: 0 <= i < |r| - 1 ==> !r[i].SendMessage?)
  {
    var cmds := SessionCommands(host, port, email, password, msg);
    IssuedSpec(accepts, cmds);
    var r := Issued(accepts, cmds);
    forall i | 0 <= i < |r| - 1
      ensures !r[i].SendMessage?
    {
      assert r[i] == cmds[i];
      assert i < |cmds| - 1;
      if i > 0 {
        assert cmds[i] == HandshakePlan(port, email, password)[i - 1];
      }
    }
  }
}
