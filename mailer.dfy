/** `send_email` of the YouTube summariser: one SMTP session that logs in
    and then sends the shared message to each subscriber in turn, setting
    its To header before each send. The relay is modelled by the events it
    sees and by how it answers. */
module Mailer {
  import opened PyStr
  import opened Mime

  const SmtpHost: string := "smtp.gmail.com"
  const SmtpPort: int := 587

  /** What the relay sees, in order. */
  datatype Event =
    | TlsStarted
    | LoginAttempt(user: string, password: string, accepted: bool)
    | SendAttempt(from: string, to: string, text: Snapshot, accepted: bool)
    | Closed

  /** How the relay answers: whether it accepts the login, and how many
      `sendmail` calls it accepts before one raises. Once a send raises the
      loop is over, so the first failing send is all that matters. */
  datatype Relay = Relay(acceptsLogin: bool, acceptedSends: nat)

  /** An `smtplib.SMTP` connection, reduced to the events it records. */
  class SmtpServer {
    const host: string
    const port: int
    const relay: Relay
    var events: seq<Event>
    var sendsTried: nat

    /** `smtplib.SMTP(host, port)`. */
    constructor Connect(host: string, port: int, relay: Relay)
      ensures this.host == host && this.port == port && this.relay == relay
      ensures events == [] && sendsTried == 0
    {
      this.host := host;
      this.port := port;
      this.relay := relay;
      events := [];
      sendsTried := 0;
    }

    /** `server.starttls()`. */
    method StartTls()
      modifies this
      ensures events == old(events) + [TlsStarted]
      ensures sendsTried == old(sendsTried)
    {
      events := events + [TlsStarted];
    }

    /** `server.login(user, password)`; `ok == false` stands for the
        exception it raises on refusal. */
    method Login(user: string, password: string) returns (ok: bool)
      modifies this
      ensures ok == relay.acceptsLogin
      ensures events == old(events) + [LoginAttempt(user, password, ok)]
      ensures sendsTried == old(sendsTried)
    {
      ok := relay.acceptsLogin;
      events := events + [LoginAttempt(user, password, ok)];
    }

    /** `server.sendmail(from, to, text)`; `ok == false` stands for the
        exception it raises on refusal. */
    method SendMail(from: string, to: string, text: Snapshot) returns (ok: bool)
      modifies this
      ensures ok == (old(sendsTried) < relay.acceptedSends)
      ensures events == old(events) + [SendAttempt(from, to, text, ok)]
      ensures sendsTried == old(sendsTried) + 1
    {
      ok := sendsTried < relay.acceptedSends;
      events := events + [SendAttempt(from, to, text, ok)];
      sendsTried := sendsTried + 1;
    }

    /** `server.quit()`. */
    method Quit()
      modifies this
      ensures events == old(events) + [Closed]
      ensures sendsTried == old(sendsTried)
    {
      events := events + [Closed];
    }
  }

  /** `[s.strip() for s in subscribers.split(",")]`: no address starts or
      ends with whitespace. */
  function Recipients(subscribers: string): (r: seq<string>)
    ensures forall i :: 0 <= i < |r| && r[i] != [] ==> !IsSpace(r[i][0]) && !IsSpace(r[i][|r[i]| - 1])
  {
    StripEach(Split(subscribers, ","))
  }

  /** `strip()` applied to each piece. */
  function StripEach(parts: seq<string>): seq<string> {
    seq(|parts|, i requires 0 <= i < |parts| => Strip(parts[i]))
  }

  /** The subscriber string yields one entry per comma plus one, none
      holding a comma or surrounding whitespace; the empty string yields one
      empty entry. */
  lemma RecipientsShape(subscribers: string)
    ensures |Recipients(subscribers)| == multiset(subscribers)[','] + 1
    ensures forall i :: 0 <= i < |Recipients(subscribers)| ==> ',' !in Recipients(subscribers)[i]
    ensures forall i :: 0 <= i < |Recipients(subscribers)| && Recipients(subscribers)[i] != [] ==>
      !IsSpace(Recipients(subscribers)[i][0]) && !IsSpace(Recipients(subscribers)[i][|Recipients(subscribers)[i]| - 1])
    ensures subscribers == "" ==> Recipients(subscribers) == [""]
  {
    var parts := Split(subscribers, ",");
    SplitOnChar(subscribers, ',');
    var r := Recipients(subscribers);
    forall i | 0 <= i < |r|
      ensures ',' !in r[i]
    {
      var j :| StrippedAt(parts[i], r[i], j);
      assert forall k :: 0 <= k < |r[i]| ==> r[i][k] == parts[i][j + k];
    }
  }

  /** The number of sends the loop attempts for `n` recipients: none when
      the login is refused; otherwise all of them, or up to and including
      the first one the relay refuses. */
  function Attempted(n: nat, relay: Relay): (r: nat)
    ensures r <= n && r <= relay.acceptedSends + 1
    ensures !relay.acceptsLogin ==> r == 0
  {
    if !relay.acceptsLogin then 0
    else if n <= relay.acceptedSends then n
    else relay.acceptedSends + 1
  }

  /** One To header per address, in order. */
  function ToHeaders(rs: seq<string>): seq<Header> {
    seq(|rs|, i requires 0 <= i < |rs| => Header("To", rs[i]))
  }

  /** The first `n` send attempts: the `k`-th goes to `rs[k]` and carries
      the message as it is then, i.e. with the To headers of this and every
      earlier recipient appended. */
  function Sends(from: string, rs: seq<string>, n: nat, msg: Snapshot, relay: Relay): (r: seq<Event>)
    requires n <= |rs|
    ensures |r| == n
    ensures forall k :: 0 <= k < n ==> r[k].SendAttempt? && r[k].from == from && r[k].to == rs[k]
  {
    seq(n, k requires 0 <= k < n =>
      SendAttempt(from, rs[k], Snapshot(msg.headers + ToHeaders(rs[..k + 1]), msg.parts), k < relay.acceptedSends))
  }

  /** Every event the relay sees during one call of `send_email`: the
      STARTTLS, the login, one event per attempted send, and the quit. */
  function Session(from: string, password: string, rs: seq<string>, msg: Snapshot, relay: Relay): (r: seq<Event>)
    ensures |r| == Attempted(|rs|, relay) + 3
    ensures r[0] == TlsStarted && r[1].LoginAttempt? && r[|r| - 1] == Closed
  {
    [TlsStarted, LoginAttempt(from, password, relay.acceptsLogin)]
      + Sends(from, rs, Attempted(|rs|, relay), msg, relay)
      + [Closed]
  }

  /** The addresses of the send attempts in a trace, in order. */
  function SentTo(events: seq<Event>): seq<string>
    decreases |events|
  {
    if events == [] then []
    else (if events[0].SendAttempt? then [events[0].to] else []) + SentTo(events[1..])
  }

  lemma SendsNext(from: string, rs: seq<string>, n: nat, msg: Snapshot, relay: Relay)
    requires n < |rs|
    ensures Sends(from, rs, n + 1, msg, relay)
         == Sends(from, rs, n, msg, relay)
            + [SendAttempt(from, rs[n], Snapshot(msg.headers + ToHeaders(rs[..n + 1]), msg.parts), n < relay.acceptedSends)]
  {
  }

  /** One iteration of the send loop: appending the `n`-th To header and
      sending extends the headers and the trace by one recipient. */
  lemma SendStep(opening: seq<Event>, from: string, rs: seq<string>, n: nat, msg: Snapshot, relay: Relay,
                 headers: seq<Header>, before: seq<Event>, after: seq<Event>, text: Snapshot)
    requires n < |rs|
    requires headers == msg.headers + ToHeaders(rs[..n]) + [Header("To", rs[n])]
    requires text == Snapshot(headers, msg.parts)
    requires before == opening + Sends(from, rs, n, msg, relay)
    requires after == before + [SendAttempt(from, rs[n], text, n < relay.acceptedSends)]
    ensures headers == msg.headers + ToHeaders(rs[..n + 1])
    ensures after == opening + Sends(from, rs, n + 1, msg, relay)
  {
    assert ToHeaders(rs[..n + 1]) == ToHeaders(rs[..n]) + [Header("To", rs[n])];
    SendsNext(from, rs, n, msg, relay);
  }

  /** `send_email(sender_email, subscribers, subject, content)`. The
      password from the secret store is a parameter and the relay's answers
      are `relay`. The message's To headers accumulate: every attempted
      send appends one and none is removed. */
  method SendEmail(senderEmail: string, subscribers: string, subject: string, content: Message,
                   password: string, relay: Relay)
    returns (server: SmtpServer)
    modifies content
    ensures fresh(server) && server.host == SmtpHost && server.port == SmtpPort
    ensures server.events == Session(senderEmail, password, Recipients(subscribers), old(content.AsString()), relay)
    ensures content.headers == old(content.headers)
      + ToHeaders(Recipients(subscribers)[..Attempted(|Recipients(subscribers)|, relay)])
    ensures content.parts == old(content.parts)
  {
    server := new SmtpServer.Connect(SmtpHost, SmtpPort, relay);
    server.StartTls();
    var loggedIn := server.Login(senderEmail, password);
    ghost var opening := [TlsStarted, LoginAttempt(senderEmail, password, loggedIn)];
    assert server.events == opening;
    ghost var msg := content.AsString();
    if loggedIn {
      var subscriberList := Split(subscribers, ",");
      SendEach(server, content, senderEmail, subscriberList, opening, msg);
    } else {
      assert Sends(senderEmail, Recipients(subscribers), 0, msg, relay) == [];
      assert Recipients(subscribers)[..0] == [];
    }
    server.Quit();
  }

  /** The `for` loop of `send_email`, after a successful login: strip the
      next piece, append its To header, send, and stop at the first send
      that raises. */
  method SendEach(server: SmtpServer, content: Message, senderEmail: string, subscriberList: seq<string>,
                  ghost opening: seq<Event>, ghost msg: Snapshot)
    requires server.relay.acceptsLogin
    requires server.events == opening && server.sendsTried == 0
    requires content.headers == msg.headers && content.parts == msg.parts
    modifies server, content
    ensures server.events == opening
      + Sends(senderEmail, StripEach(subscriberList), Attempted(|subscriberList|, server.relay), msg, server.relay)
    ensures content.headers == msg.headers
      + ToHeaders(StripEach(subscriberList)[..Attempted(|subscriberList|, server.relay)])
    ensures content.parts == msg.parts
  {
    ghost var relay := server.relay;
    ghost var rs := StripEach(subscriberList);
    assert Sends(senderEmail, rs, 0, msg, relay) == [];
    assert rs[..0] == [];
    var n := 0;
    var failed := false;
    while n < |subscriberList| && !failed
      invariant 0 <= n <= |subscriberList| == |rs|
      invariant server.sendsTried == n
      invariant failed ==> n == relay.acceptedSends + 1
      invariant !failed ==> n <= relay.acceptedSends
      invariant server.events == opening + Sends(senderEmail, rs, n, msg, relay)
      invariant content.headers == msg.headers + ToHeaders(rs[..n]) && content.parts == msg.parts
      decreases |subscriberList| - n
    {
      var receiverEmail := Strip(subscriberList[n]);
      assert receiverEmail == rs[n];
      content.SetItem("To", receiverEmail);
      ghost var before := server.events;
      var ok := server.SendMail(senderEmail, receiverEmail, content.AsString());
      SendStep(opening, senderEmail, rs, n, msg, relay, content.headers, before, server.events, content.AsString());
      n := n + 1;
      failed := !ok;
    }
    if failed {
      assert |rs| > relay.acceptedSends;
    } else {
      assert n == |rs| <= relay.acceptedSends;
    }
    assert n == Attempted(|rs|, relay);
  }

  lemma {:induction false} SentToAppend(a: seq<Event>, b: seq<Event>)
    ensures SentTo(a + b) == SentTo(a) + SentTo(b)
    decreases |a|
  {
    if a == [] {
      assert a + b == b;
    } else {
      assert (a + b)[0] == a[0];
      assert (a + b)[1..] == a[1..] + b;
      SentToAppend(a[1..], b);
    }
  }

  lemma {:induction false} SentToSends(from: string, rs: seq<string>, n: nat, msg: Snapshot, relay: Relay)
    requires n <= |rs|
    ensures SentTo(Sends(from, rs, n, msg, relay)) == rs[..n]
    decreases n
  {
    if n > 0 {
      SendsNext(from, rs, n - 1, msg, relay);
      var last := Sends(from, rs, n, msg, relay)[n - 1];
      SentToAppend(Sends(from, rs, n - 1, msg, relay), [last]);
      SentToSends(from, rs, n - 1, msg, relay);
      assert SentTo([last]) == [rs[n - 1]];
      assert rs[..n] == rs[..n - 1] + [rs[n - 1]];
    }
  }

  /** The addresses sent to are a prefix of the recipient list, in order:
      none when the login is refused, all of them when the relay accepts
      every send, and otherwise up to the first refused send. */
  lemma SessionSendsPrefix(from: string, password: string, rs: seq<string>, msg: Snapshot, relay: Relay)
    ensures SentTo(Session(from, password, rs, msg, relay)) == rs[..Attempted(|rs|, relay)]
    ensures !relay.acceptsLogin ==> SentTo(Session(from, password, rs, msg, relay)) == []
    ensures relay.acceptsLogin && |rs| <= relay.acceptedSends ==> SentTo(Session(from, password, rs, msg, relay)) == rs
  {
    var n := Attempted(|rs|, relay);
    var opening := [TlsStarted, LoginAttempt(from, password, relay.acceptsLogin)];
    var sends := Sends(from, rs, n, msg, relay);
    SentToAppend(opening + sends, [Closed]);
    SentToAppend(opening, sends);
    SentToSends(from, rs, n, msg, relay);
    assert SentTo(opening) == [] by {
      assert opening[1..][1..] == [];
    }
    assert SentTo([Closed]) == [];
    assert rs[..|rs|] == rs;
  }

  /** Every send but the last attempted one is accepted; when fewer sends
      than recipients were attempted after a successful login, the last
      attempt was refused. */
  lemma SessionStopsAtFirstRefusal(from: string, password: string, rs: seq<string>, msg: Snapshot, relay: Relay)
    ensures forall k :: 0 <= k < Attempted(|rs|, relay) - 1 ==>
      Sends(from, rs, Attempted(|rs|, relay), msg, relay)[k].accepted
    ensures relay.acceptsLogin && Attempted(|rs|, relay) < |rs| ==>
      !Sends(from, rs, Attempted(|rs|, relay), msg, relay)[Attempted(|rs|, relay) - 1].accepted
  {
  }

  /** The connection is closed exactly once, as the last event, on every
      path: login refused, a send refused, or all sent. */
  lemma SessionClosesOnce(from: string, password: string, rs: seq<string>, msg: Snapshot, relay: Relay)
    ensures Session(from, password, rs, msg, relay)[|Session(from, password, rs, msg, relay)| - 1] == Closed
    ensures multiset(Session(from, password, rs, msg, relay))[Closed] == 1
  {
    var sends := Sends(from, rs, Attempted(|rs|, relay), msg, relay);
    assert Closed !in sends;
    var opening := [TlsStarted, LoginAttempt(from, password, relay.acceptsLogin)];
    assert multiset(opening)[Closed] == 0;
    assert multiset(opening + sends + [Closed]) == multiset(opening) + multiset(sends) + multiset([Closed]);
  }

  /** Because the same message is reused, the `k`-th send carries the To
      headers of every recipient up to and including the `k`-th, after any
      the message had before. */
  lemma SendCarriesEarlierRecipients(from: string, rs: seq<string>, n: nat, msg: Snapshot, relay: Relay, k: nat)
    requires k < n <= |rs|
    ensures Values(Sends(from, rs, n, msg, relay)[k].text.headers, "To") == Values(msg.headers, "To") + rs[..k + 1]
  {
    ValuesAppend(msg.headers, ToHeaders(rs[..k + 1]), "To");
    ToValues(rs[..k + 1]);
  }

  lemma {:induction false} ToValues(rs: seq<string>)
    ensures Values(ToHeaders(rs), "To") == rs
    decreases |rs|
  {
    if rs != [] {
      ToValues(rs[1..]);
      assert ToHeaders(rs)[1..] == ToHeaders(rs[1..]);
    }
  }

  /** Two addresses written `a, b`: the split cuts at the one comma, the
      strip removes the space after it, and a relay that accepts the login
      and both sends sees both, in order. */
  lemma TwoSubscribers(a: string, b: string, from: string, password: string, msg: Snapshot)
    requires a != [] && ',' !in a && !IsSpace(a[0]) && !IsSpace(a[|a| - 1])
    requires b != [] && ',' !in b && !IsSpace(b[0]) && !IsSpace(b[|b| - 1])
    ensures Recipients(a + ", " + b) == [a, b]
    ensures SentTo(Session(from, password, [a, b], msg, Relay(true, 2))) == [a, b]
  {
    var s := a + ", " + b;
    var ps := [a, [' '] + b];
    assert Join(ps, ",") == s;
    forall j | 0 <= j < |a|
      ensures !MatchAt(a + ",", ",", j)
    {
      assert (a + ",")[j] == a[j];
    }
    forall j | 0 <= j <= |ps[1]| - 1
      ensures !MatchAt(ps[1], ",", j)
    {
      assert ps[1][j] != ',';
    }
    LeftmostSplitUnique(s, ",", ps);
    StripUnchanged(a);
    StripUnchanged(b);
    StripLeadingSpace(' ', b);
    var r := Recipients(s);
    assert r == [r[0], r[1]];
    SessionSendsPrefix(from, password, [a, b], msg, Relay(true, 2));
  }
}
