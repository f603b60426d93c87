/**
 The client's handshake machine for TLS 1.2 and below, DTLS included: one handler for each state, run
 in a loop that is left whenever a handler has to wait, and entered again at the same state.
 */
module TlsClient {
  import opened Wrappers
  import opened Bytes
  import opened TlsFlow
  import opened TlsConnection

  datatype State = StartConnect | EnterEarlyData | ReadHelloVerifyRequest | ReadServerHelloMsg | ReadServerCertificate
                 | ReadCertificateStatus | VerifyServerCertificate | ReadServerKeyExchange | ReadCertificateRequest
                 | ReadServerHelloDone | SendClientCertificate | SendClientKeyExchange | SendClientCertificateVerify
                 | SendClientFinished | FinishFlight | ReadSessionTicket | ProcessChangeCipherSpec
                 | ReadServerFinished | FinishClientHandshake | Done

  /** What configuration and negotiation fix for the whole handshake. */
  datatype Config = Config(dtls: bool, certificateAuth: bool, requiresKeyExchange: bool, statusExpected: bool,
                           nextProto: bool, channelId: bool, ticketExpected: bool, falseStart: bool)

  /** The place in the flow where the machine stands in a state. */
  function Place(st: State, resumed: bool): nat
  {
    match st
    case StartConnect => 0
    case EnterEarlyData => 1
    case ReadHelloVerifyRequest => 1
    case ReadServerHelloMsg => 1
    case ReadServerCertificate => 2
    case ReadCertificateStatus => 3
    case VerifyServerCertificate => 4
    case ReadServerKeyExchange => 4
    case ReadCertificateRequest => 5
    case ReadServerHelloDone => 6
    case SendClientCertificate => 7
    case SendClientKeyExchange => 8
    case SendClientCertificateVerify => 9
    case SendClientFinished => if resumed then 5 else 10
    case FinishFlight => if resumed then 9 else 14
    case ReadSessionTicket => if resumed then 2 else 14
    case ProcessChangeCipherSpec => if resumed then 3 else 15
    case ReadServerFinished => if resumed then 4 else 16
    case FinishClientHandshake => if resumed then 9 else 17
    case Done => if resumed then 9 else 17
  }

  /** Distance to the end: resumption reads before it sends, so its states count in another order. */
  function Rank(st: State, resumed: bool): nat
  {
    match st
    case StartConnect => 30
    case EnterEarlyData => 29
    case ReadHelloVerifyRequest => 28
    case ReadServerHelloMsg => 27
    case ReadServerCertificate => 23
    case ReadCertificateStatus => 22
    case VerifyServerCertificate => 21
    case ReadServerKeyExchange => 20
    case ReadCertificateRequest => 19
    case ReadServerHelloDone => 18
    case SendClientCertificate => 17
    case SendClientKeyExchange => 16
    case SendClientCertificateVerify => 15
    case SendClientFinished => 8
    case FinishFlight => 7
    case ReadSessionTicket => if resumed then 26 else 5
    case ProcessChangeCipherSpec => if resumed then 25 else 4
    case ReadServerFinished => if resumed then 24 else 3
    case FinishClientHandshake => 1
    case Done => 0
  }

  /**
   The machine's own variables. `session` is the session offered and later the one resumed; `status`
   and `keyExchange` say that the server chose to send those messages, `clientKey` that the client
   has a certificate to answer a request with.
   */
  datatype Hs = Hs(state: State, session: bool, status: bool, keyExchange: bool, certRequest: bool, clientKey: bool,
                   chainAccepted: bool, paramsSigned: bool, sessionHash: bytes)

  function Settled(cfg: Config, hs: Hs): Choices
  {
    Choices(hs.session, cfg.certificateAuth, hs.status, hs.keyExchange, hs.certRequest, hs.clientKey,
            cfg.nextProto, cfg.channelId, cfg.ticketExpected)
  }

  /** Only the first exchange of a DTLS handshake may be left out of the transcript. */
  predicate DroppedRight(dropped: History)
  {
    || dropped == EMPTY
    || (|dropped.log| == 2 && dropped.log[0].Sent? && dropped.log[0].m.kind == ClientHello
        && dropped.log[1].Received? && dropped.log[1].m.kind == HelloVerifyRequest)
  }

  /**
   What each state relies on: that the hash is set up once the cipher is known, that the buffer is
   kept for as long as a CertificateVerify may have to be signed, and that the server's certificate
   has been accepted and its key exchange parameters were signed before anything is made of them.
   */
  predicate StateFacts(cfg: Config, conn: Connection, hs: Hs, w: Wait)
  {
    match hs.state
    case StartConnect | EnterEarlyData | ReadHelloVerifyRequest =>
      && conn.hashed.None? && conn.buffer.Some? && !hs.status && !hs.keyExchange && !hs.certRequest && !hs.clientKey
      && conn.dropped == EMPTY && hs.sessionHash == []
    case ReadServerHelloMsg =>
      conn.hashed.None? && conn.buffer.Some? && !hs.status && !hs.keyExchange && !hs.certRequest && !hs.clientKey
    case ReadServerCertificate | ReadCertificateStatus | VerifyServerCertificate =>
      && conn.hashed.Some? && !hs.session && (cfg.certificateAuth ==> conn.buffer.Some?)
      && !hs.keyExchange && !hs.certRequest && !hs.clientKey
    case ReadServerKeyExchange =>
      && conn.hashed.Some? && !hs.session && (cfg.certificateAuth ==> conn.buffer.Some? && hs.chainAccepted)
      && !hs.keyExchange && !hs.certRequest && !hs.clientKey
    case ReadCertificateRequest =>
      && conn.hashed.Some? && !hs.session && (cfg.certificateAuth ==> conn.buffer.Some?) && Authentic(cfg, hs)
      && !hs.certRequest && !hs.clientKey
    case ReadServerHelloDone | SendClientCertificate =>
      conn.hashed.Some? && !hs.session && (hs.certRequest ==> conn.buffer.Some?) && Authentic(cfg, hs) && !hs.clientKey
    case SendClientKeyExchange | SendClientCertificateVerify =>
      conn.hashed.Some? && !hs.session && (hs.clientKey ==> conn.buffer.Some?) && Authentic(cfg, hs)
    case ProcessChangeCipherSpec =>
      conn.hashed.Some? && (!hs.session ==> Authentic(cfg, hs)) && (conn.ccsArrived || w == ReadCcs)
    case _ =>
      conn.hashed.Some? && (!hs.session ==> Authentic(cfg, hs))
  }

  /** The server has proved who it is, as far as a full handshake does before Finished. */
  predicate Authentic(cfg: Config, hs: Hs)
  {
    cfg.certificateAuth ==> hs.chainAccepted && (hs.keyExchange ==> hs.paramsSigned)
  }

  /** What holds between handlers, when the machine is about to wait for `w`. */
  ghost predicate Inv(cfg: Config, conn: Connection, hs: Hs, w: Wait)
  {
    forall a: Aspect :: Holds(cfg, conn, hs, w, a)
  }

  datatype Aspect = FlowSoFar | ThisState | EveryState

  ghost predicate Holds(cfg: Config, conn: Connection, hs: Hs, w: Wait, a: Aspect)
  {
    match a
    case FlowSoFar => Along(conn, Settled(cfg, hs), Place(hs.state, hs.session), false)
    case ThisState => StateFacts(cfg, conn, hs, w)
    case EveryState => Always(cfg, conn, hs, Place(hs.state, hs.session))
  }

  /** What a handler may rely on ... */
  lemma Rely(cfg: Config, conn: Connection, hs: Hs, w: Wait)
    requires Inv(cfg, conn, hs, w)
    ensures Along(conn, Settled(cfg, hs), Place(hs.state, hs.session), false)
    ensures StateFacts(cfg, conn, hs, w) && Always(cfg, conn, hs, Place(hs.state, hs.session))
  {
    assert Holds(cfg, conn, hs, w, FlowSoFar) && Holds(cfg, conn, hs, w, ThisState)
      && Holds(cfg, conn, hs, w, EveryState);
  }

  /** ... and has to reach. */
  lemma Reach(cfg: Config, conn: Connection, hs: Hs, w: Wait, settled: Choices, k: nat)
    requires Along(conn, settled, k, false) && settled == Settled(cfg, hs) && k == Place(hs.state, hs.session)
    requires w == Error || (StateFacts(cfg, conn, hs, w) && Always(cfg, conn, hs, Place(hs.state, hs.session)))
    ensures w == Error || Inv(cfg, conn, hs, w)
  {
    assert Along(conn, Settled(cfg, hs), Place(hs.state, hs.session), false);
  }

  /** Waiting changes nothing. */
  lemma Waits(cfg: Config, conn: Connection, hs: Hs, w: Wait)
    requires Inv(cfg, conn, hs, Ok)
    ensures Inv(cfg, conn, hs, w)
  {
    Rely(cfg, conn, hs, Ok);
    forall a: Aspect ensures Holds(cfg, conn, hs, w, a) {
    }
  }

  /** What holds at every place. */
  predicate Always(cfg: Config, conn: Connection, hs: Hs, k: nat)
  {
    && !conn.server && DroppedRight(conn.dropped)
    && hs.sessionHash == conn.past.sessionHash
    && (hs.status || hs.certRequest ==> cfg.certificateAuth) && (hs.clientKey ==> hs.certRequest)
    && (hs.certRequest && k > 1 ==> !hs.session)
    && (hs.status ==> cfg.statusExpected) && (k >= 5 && !hs.session && cfg.requiresKeyExchange ==> hs.keyExchange)
  }

  /** Choices that agree on all but the message at place `k` and what follows from it. */
  predicate DifferFrom(before: Choices, after: Choices, k: nat)
  {
    if k == 3 then after == before.(status := after.status)
    else if k == 4 then after == before.(keyExchange := after.keyExchange)
    else if k == 5 then after == before.(certRequest := after.certRequest)
    else k == 7 && after == before.(clientKey := after.clientKey)
  }

  lemma SameBelow(before: Choices, after: Choices, k: nat, i: nat)
    requires DifferFrom(before, after, k) && i < k
    ensures Spoken(before, StepAt(false, i)) == Spoken(after, StepAt(false, i))
  {
  }

  /** A message that turns out to come settles only what comes from its place on. */
  lemma SettleFrom(c: Connection, before: Choices, after: Choices, k: nat)
    requires Along(c, before, k, false) && !before.resumed && !after.resumed && DifferFrom(before, after, k)
    ensures Along(c, after, k, false)
  {
    forall i: nat | i < k ensures Spoken(before, StepAt(false, i)) == Spoken(after, StepAt(false, i)) {
      SameBelow(before, after, k, i);
    }
    Settle(c, before, after, k, false);
  }

  lemma OneHello(crypto: Crypto, log: seq<Event>)
    requires Replay(crypto, false, log).steps == [Client(ClientHello)]
    ensures |log| == 1 && log[0].Sent? && log[0].m.kind == ClientHello
    ensures !Replay(crypto, false, log).readCcs && !Replay(crypto, false, log).wroteCcs
  {
    ReplaySteps(crypto, false, log);
    assert StepOf(log[0], false) == Client(ClientHello);
    SawCcs(crypto, false, log);
  }

  /** After the first hello, that is all that has passed. */
  lemma OnlyHello(c: Connection, choices: Choices)
    requires Along(c, choices, 1, false) && !c.server
    ensures |c.past.log| == 1 && c.past.log[0].Sent? && c.past.log[0].m.kind == ClientHello
    ensures !c.readSealed && !c.writeSealed
  {
    assert Keeps(c, choices, 1, false, HistoryIsReplayed) && Keeps(c, choices, 1, false, KeysAsNoted);
    assert Keeps(c, choices, 1, false, FlowFollowed);
    FirstHello(choices);
    OneHello(c.crypto, c.past.log);
  }

  /** With a HelloVerifyRequest, it is what may be dropped. */
  lemma FirstDropped(c: Connection, choices: Choices)
    requires Along(c, choices, 1, false) && !c.server && c.inbox != [] && c.inbox[0].kind == HelloVerifyRequest
    ensures DroppedRight(c.Noting(Received(c.inbox[0])))
  {
    OnlyHello(c, choices);
  }

  /** A server that authenticates itself sends a CertificateRequest or goes on to ServerHelloDone. */
  predicate RequestAnswer(c: Connection, requested: bool, ret: Wait)
  {
    if c.inbox == [] then ret == ReadMessage
    else match c.inbox[0].kind
      case ServerHelloDone => ret == Ok && !requested
      case CertificateRequest => ret == Error || (ret == Ok && requested)
      case _ => ret == Error
  }

  /** Why a machine gives up though it refuses nothing: what has come is not what its state calls for. */
  predicate OutOfPlace(cfg: Config, conn: Connection, hs: Hs)
  {
    match hs.state
    case ReadServerHelloMsg => Wrong(conn, ServerHello)
    case ReadServerCertificate => cfg.certificateAuth && Wrong(conn, Certificate)
    case ReadServerKeyExchange => cfg.requiresKeyExchange && Wrong(conn, ServerKeyExchange)
    case ReadCertificateRequest =>
      cfg.certificateAuth && Wrong(conn, CertificateRequest) && Wrong(conn, ServerHelloDone)
    case ReadServerHelloDone => Wrong(conn, ServerHelloDone) || (conn.inbox != [] && conn.inbox[0].body != [])
    case ReadSessionTicket => cfg.ticketExpected && Wrong(conn, NewSessionTicket)
    case ProcessChangeCipherSpec => conn.inbox != [] || conn.leftover
    case ReadServerFinished => FinishedAnswer(conn) == Error
    case _ => false
  }

  /**
   That is: something is left under the old keys, or what has come is not the message that the flow has here
   (where a CertificateRequest may come, ServerHelloDone may too), or has not the contents it must have.
   */
  lemma OutOfPlaceIsOutOfFlow(cfg: Config, conn: Connection, hs: Hs)
    requires OutOfPlace(cfg, conn, hs) && !conn.server
    requires hs.session ==>
      hs.state in {ReadServerHelloMsg, ReadSessionTicket, ProcessChangeCipherSpec, ReadServerFinished}
    ensures var s := StepAt(hs.session, Place(hs.state, hs.session));
      || (s == ServerCcs && (conn.inbox != [] || conn.leftover))
      || (s.Server? && conn.inbox != []
            && var m := conn.inbox[0];
               || (m.kind != s.kind && (s.kind == CertificateRequest ==> m.kind != ServerHelloDone))
               || (m.kind == ServerHelloDone && m.body != [])
               || (m.kind == Finished && m.body != conn.crypto.verifyData(true, conn.past.messages)))
    ensures hs.state == ReadServerCertificate || hs.state == ReadCertificateRequest ==> cfg.certificateAuth
    ensures hs.state == ReadServerKeyExchange ==> cfg.requiresKeyExchange
    ensures hs.state == ReadSessionTicket ==> cfg.ticketExpected
  {
    match hs.state case _ =>
  }

  /** Where a willing machine stops: after a flight, where it needs the peer, and where the peer has gone wrong. */
  predicate Answers(cfg: Config, conn: Connection, hs: Hs, ret: Wait)
  {
    || ret == Flush
    || ((ret == ReadMessage || ret == ReadServerHello) && conn.inbox == [])
    || (ret == ReadCcs && hs.state == ProcessChangeCipherSpec)
    || (ret == EarlyReturn && cfg.falseStart && !hs.session)
    || (ret == Error && OutOfPlace(cfg, conn, hs))
  }

  /** Without a message to go on with, the machine waits for one. */
  lemma NeedsPeer(cfg: Config, conn: Connection, hs: Hs)
    requires Inv(cfg, conn, hs, Ok) && conn.inbox == []
    ensures Inv(cfg, conn, hs, ReadMessage) && Answers(cfg, conn, hs, ReadMessage)
  {
    Waits(cfg, conn, hs, ReadMessage);
  }

  /** Where ServerHello leads. */
  lemma AfterHello(cfg: Config, conn: Connection, hs: Hs, next: Hs)
    requires next == hs.(state := if hs.session then ReadSessionTicket else ReadServerCertificate)
    requires Along(conn, Settled(cfg, hs), 2, false) && Always(cfg, conn, hs, 2)
    requires conn.hashed.Some? && conn.buffer.Some? == (!hs.session && cfg.certificateAuth)
      && !hs.status && !hs.keyExchange && !hs.certRequest && !hs.clientKey
    ensures Inv(cfg, conn, next, Ok)
  {
    if hs.session {
      Reach(cfg, conn, next, Ok, Settled(cfg, hs), 2);
    } else {
      Reach(cfg, conn, next, Ok, Settled(cfg, hs), 2);
    }
  }

  /** The server's key exchange parameters have been taken. */
  lemma AfterKeyExchange(cfg: Config, was: Connection, conn: Connection, hs: Hs, next: Hs)
    requires next == hs.(keyExchange := true, paramsSigned := cfg.certificateAuth, state := ReadCertificateRequest)
    requires StateFacts(cfg, was, hs, Ok) && Always(cfg, was, hs, 4) && hs.state == ReadServerKeyExchange
    requires Along(conn, Settled(cfg, next), 5, false) && conn.Like(was) && conn.LiveLike(was)
    requires conn.past.sessionHash == was.past.sessionHash
    ensures Inv(cfg, conn, next, Ok)
  {
    Reach(cfg, conn, next, Ok, Settled(cfg, next), 5);
  }

  /** The server's Finished has been accepted. */
  ghost predicate PastFinished(cfg: Config, conn: Connection, hs: Hs)
  {
    && Along(conn, Settled(cfg, hs), if hs.session then 5 else 17, false) && Always(cfg, conn, hs, 5)
    && conn.hashed.Some? && (!hs.session ==> Authentic(cfg, hs))
  }

  /** Where the server's Finished leads. */
  function FinishedNext(hs: Hs): Hs
  {
    hs.(state := if hs.session then SendClientFinished else FinishClientHandshake)
  }

  lemma AfterServerFinished(cfg: Config, conn: Connection, hs: Hs)
    requires PastFinished(cfg, conn, hs)
    ensures Inv(cfg, conn, FinishedNext(hs), Ok)
  {
    if hs.session {
      Reach(cfg, conn, FinishedNext(hs), Ok, Settled(cfg, hs), 5);
    } else {
      Reach(cfg, conn, FinishedNext(hs), Ok, Settled(cfg, hs), 17);
    }
  }

  /** What comes in disturbs nothing. */
  lemma ArrivedKeeps(cfg: Config, conn: Connection, hs: Hs, w: Wait, after: Connection)
    requires w != Error && Inv(cfg, conn, hs, w) && Along(after, Settled(cfg, hs), Place(hs.state, hs.session), false)
    requires after == conn.(inbox := after.inbox, arrived := after.arrived, leftover := after.leftover,
      ccsArrived := after.ccsArrived)
    requires conn.ccsArrived ==> after.ccsArrived
    ensures Inv(cfg, after, hs, w)
  {
    Rely(cfg, conn, hs, w);
    Reach(cfg, after, hs, w, Settled(cfg, hs), Place(hs.state, hs.session));
  }

  /** What was waited for has come. */
  lemma Resolved(cfg: Config, conn: Connection, hs: Hs, w: Wait)
    requires Inv(cfg, conn, hs, w) && (w == ReadCcs ==> conn.ccsArrived)
    ensures Inv(cfg, conn, hs, Ok)
  {
    Rely(cfg, conn, hs, w);
    Reach(cfg, conn, hs, Ok, Settled(cfg, hs), Place(hs.state, hs.session));
  }

  class ClientHandshake {
    const cfg: Config
    /** Whether nothing on this side refuses or puts off what it is asked for, and parsing finds no fault. */
    const willing: bool
    var conn: Connection
    var hs: Hs
    var wait: Wait

    /** After an error the machine is never run again. */
    ghost predicate Valid()
      reads this
    {
      wait != Error ==> Inv(cfg, conn, hs, wait)
    }

    twostate predicate Stepped(ret: Wait)
      reads this
    {
      && (ret == Error || Inv(cfg, conn, hs, ret))
      && (!willing || ret == Ok || Answers(cfg, conn, hs, ret))
      && (ret == Ok ==> Rank(hs.state, hs.session) < old(Rank(hs.state, hs.session)))
    }

    constructor (cfg: Config, crypto: Crypto, session: bool, willing: bool)
      ensures Valid() && hs.state == StartConnect && wait == Ok && this.cfg == cfg && this.willing == willing
    {
      this.cfg, this.willing := cfg, willing;
      var start := Hs(StartConnect, session, false, false, false, false, false, false, []);
      var c := Fresh(false, crypto, Settled(cfg, start));
      Reach(cfg, c, start, Ok, Settled(cfg, start), 0);
      conn, hs, wait := c, start, Ok;
    }

    /** Something that may be refused, or put off until later. */
    method Ask() returns (granted: bool, later: bool)
      ensures willing ==> granted && !later
    {
      granted, later := *, *;
      if willing {
        granted, later := true, false;
      }
    }

    method DoStartConnect() returns (ret: Wait)
      requires Inv(cfg, conn, hs, Ok) && hs.state == StartConnect
      modifies this`hs, this`conn
      ensures Stepped(ret)
      ensures (ret == Flush || ret == Error) && (willing ==> ret == Flush)
      ensures ret == Flush ==>
        hs == old(hs).(session := hs.session, state := EnterEarlyData) && (hs.session ==> old(hs.session))
    {
      Rely(cfg, conn, hs, Ok);
      var usable: bool, body: bytes, raw: bytes := *, *, *;
      var ok, _ := Ask();
      ghost var before := Settled(cfg, hs);
      hs := hs.(session := hs.session && usable);
      ghost var settled := Settled(cfg, hs);
      SettleEarly(conn, before, settled, 0);
      if !ok {
        return Error;
      }
      conn := AddMessage(conn, ClientHello, body, raw, settled, 0);
      hs := hs.(state := EnterEarlyData);
      Reach(cfg, conn, hs, Flush, settled, 1);
      return Flush;
    }

    method DoEnterEarlyData() returns (ret: Wait)
      requires Inv(cfg, conn, hs, Ok) && hs.state == EnterEarlyData
      modifies this`hs
      ensures Stepped(ret)
      ensures ret == Ok && hs == old(hs).(state := if cfg.dtls then ReadHelloVerifyRequest else ReadServerHelloMsg)
    {
      Rely(cfg, conn, hs, Ok);
      if cfg.dtls {
        hs := hs.(state := ReadHelloVerifyRequest);
      } else {
        hs := hs.(state := ReadServerHelloMsg);
      }
      Reach(cfg, conn, hs, Ok, old(Settled(cfg, hs)), 1);
      return Ok;
    }

    method DoReadHelloVerifyRequest() returns (ret: Wait)
      requires Inv(cfg, conn, hs, Ok) && hs.state == ReadHelloVerifyRequest
      modifies this`hs, this`conn
      ensures Stepped(ret)
      ensures ret == ReadMessage <==> old(conn).inbox == []
      ensures ret == Ok <==> old(conn).inbox != [] && old(conn).inbox[0].kind != HelloVerifyRequest
      ensures hs == if ret == Ok || ret == Flush then old(hs).(state := ReadServerHelloMsg) else old(hs)
      ensures willing && Heads(old(conn), HelloVerifyRequest) ==> ret == Flush
      ensures ret != Flush ==> conn == old(conn)
    {
      var msg := GetMessage(conn);
      if msg.None? {
        NeedsPeer(cfg, conn, hs);
        return ReadMessage;
      }
      if msg.value.kind != HelloVerifyRequest {
        NoVerifyRequest();
        return Ok;
      }
      var ok, _ := Ask();
      if !ok {
        return Error;
      }
      HelloAgain();
      return Flush;
    }

    method NoVerifyRequest()
      requires Inv(cfg, conn, hs, Ok) && hs.state == ReadHelloVerifyRequest
      modifies this`hs
      ensures Inv(cfg, conn, hs, Ok) && hs == old(hs).(state := ReadServerHelloMsg)
    {
      Rely(cfg, conn, hs, Ok);
      hs := hs.(state := ReadServerHelloMsg);
      Reach(cfg, conn, hs, Ok, old(Settled(cfg, hs)), 1);
    }

    /** The transcript starts over, with another hello. */
    method HelloAgain()
      requires Inv(cfg, conn, hs, Ok) && hs.state == ReadHelloVerifyRequest
      requires conn.inbox != [] && conn.inbox[0].kind == HelloVerifyRequest
      modifies this`hs, this`conn
      ensures Inv(cfg, conn, hs, Flush) && hs == old(hs).(state := ReadServerHelloMsg)
    {
      Rely(cfg, conn, hs, Ok);
      var body: bytes, raw: bytes := *, *;
      ghost var settled := Settled(cfg, hs);
      Restart(body, raw, settled);
      hs := hs.(state := ReadServerHelloMsg);
      Reach(cfg, conn, hs, Flush, settled, 1);
    }

    method Restart(body: bytes, raw: bytes, ghost settled: Choices)
      requires Along(conn, settled, 1, false) && !conn.server && conn.dropped == EMPTY
      requires conn.inbox != [] && conn.inbox[0].kind == HelloVerifyRequest
      modifies this`conn
      ensures Along(conn, settled, 1, false) && !conn.server && DroppedRight(conn.dropped)
      ensures conn.buffer.Some? && conn.hashed.None? && conn.past.sessionHash == []
    {
      OnlyHello(conn, settled);
      FirstDropped(conn, settled);
      conn := StartOver(conn, settled, 1, settled);
      conn := AddMessage(conn, ClientHello, body, raw, settled, 0);
    }

    method DoReadServerHello() returns (ret: Wait)
      requires Inv(cfg, conn, hs, Ok) && hs.state == ReadServerHelloMsg
      modifies this`hs, this`conn
      ensures Stepped(ret)
      ensures ret == ReadServerHello <==> old(conn).inbox == []
      ensures old(conn).inbox != [] ==> ret == Ok || ret == Error
      ensures willing && Heads(old(conn), ServerHello) ==> ret == Ok
      ensures ret == Ok ==>
        && old(conn).inbox[0].kind == ServerHello
        && hs == old(hs).(session := hs.session,
                          state := if hs.session then ReadSessionTicket else ReadServerCertificate)
      ensures ret == Ok && hs.session ==> old(hs.session)
      ensures ret == Ok ==> conn.buffer.Some? == (!hs.session && cfg.certificateAuth)
    {
      Rely(cfg, conn, hs, Ok);
      var msg := GetMessage(conn);
      if msg.None? {
        Waits(cfg, conn, hs, ReadServerHello);
        return ReadServerHello;
      }
      if msg.value.kind != ServerHello {
        return Error;
      }
      var accepted: bool := *;
      var ok, _ := Ask();
      if !ok {
        return Error;
      }
      ghost var before := Settled(cfg, hs);
      hs := hs.(session := hs.session && accepted);
      SettleEarly(conn, before, Settled(cfg, hs), 1);
      HashServerHello(Settled(cfg, hs));
      var next := hs.(state := if hs.session then ReadSessionTicket else ReadServerCertificate);
      AfterHello(cfg, conn, hs, next);
      hs := next;
      return Ok;
    }

    /** From here on there is a hash; the buffer stays only where a CertificateVerify may have to be signed. */
    method HashServerHello(ghost settled: Choices)
      requires Along(conn, settled, 1, false) && !conn.server && conn.buffer.Some?
      requires conn.inbox != [] && conn.inbox[0].kind == ServerHello
      modifies this`conn
      ensures Along(conn, settled, 2, false) && conn.Like(old(conn)) && conn.hashed.Some?
      ensures conn.buffer.Some? == (!hs.session && cfg.certificateAuth)
      ensures conn.past.sessionHash == old(conn.past.sessionHash)
    {
      conn := InitHash(conn, settled, 1);
      conn := HashMessage(conn, settled, 1);
      if hs.session || !cfg.certificateAuth {
        conn := FreeBuffer(conn, settled, 1, true);
      }
      conn := NextMessage(conn, settled, 1);
    }

    method DoReadServerCertificate() returns (ret: Wait)
      requires Inv(cfg, conn, hs, Ok) && hs.state == ReadServerCertificate
      modifies this`hs, this`conn
      ensures Stepped(ret)
      ensures if !cfg.certificateAuth then ret == Ok else Needs(old(conn), Certificate, ret)
      ensures willing && Heads(old(conn), Certificate) ==> ret == Ok
      ensures ret == Ok ==> hs == old(hs).(state := ReadCertificateStatus)
    {
      Rely(cfg, conn, hs, Ok);
      ghost var settled := Settled(cfg, hs);
      if !cfg.certificateAuth {
        Skip(conn, settled, 2, Server(Certificate));
        hs := hs.(state := ReadCertificateStatus);
        Reach(cfg, conn, hs, Ok, settled, 3);
        return Ok;
      }
      var msg := GetMessage(conn);
      if msg.None? {
        NeedsPeer(cfg, conn, hs);
        return ReadMessage;
      }
      if msg.value.kind != Certificate {
        return Error;
      }
      var ok, _ := Ask();
      ok, conn := Take(conn, ok, settled, 2);
      if !ok {
        return Error;
      }
      hs := hs.(state := ReadCertificateStatus);
      Reach(cfg, conn, hs, Ok, settled, 3);
      return Ok;
    }

    method DoReadCertificateStatus() returns (ret: Wait)
      requires Inv(cfg, conn, hs, Ok) && hs.state == ReadCertificateStatus
      modifies this`hs, this`conn
      ensures Stepped(ret)
      ensures if !(cfg.statusExpected && cfg.certificateAuth) then ret == Ok
              else (ret == ReadMessage <==> old(conn).inbox == [])
      ensures ret == Ok ==>
        && hs == old(hs).(status := hs.status, state := VerifyServerCertificate)
        && (hs.status <==> cfg.statusExpected && cfg.certificateAuth && Heads(old(conn), CertificateStatus))
      ensures ret == Error ==> Heads(old(conn), CertificateStatus) && !willing
    {
      if cfg.statusExpected && cfg.certificateAuth {
        ret := ReadStatus();
      } else {
        PassStatus(false);
        ret := Ok;
      }
    }

    /** A server that may send the response need not. */
    method ReadStatus() returns (ret: Wait)
      requires Inv(cfg, conn, hs, Ok) && hs.state == ReadCertificateStatus && cfg.certificateAuth && cfg.statusExpected
      modifies this`hs, this`conn
      ensures ret == Error || Inv(cfg, conn, hs, ret)
      ensures ret == Ok || (ret == Error && !willing) || Answers(cfg, conn, hs, ret)
      ensures ret == ReadMessage <==> old(conn).inbox == []
      ensures ret == Error ==> Heads(old(conn), CertificateStatus) && !willing
      ensures ret == Ok ==>
        hs == old(hs).(status := Heads(old(conn), CertificateStatus), state := VerifyServerCertificate)
    {
      var msg := GetMessage(conn);
      if msg.None? {
        NeedsPeer(cfg, conn, hs);
        return ReadMessage;
      }
      var present := msg.value.kind == CertificateStatus;
      var ok, _ := Ask();
      if present && !ok {
        return Error;
      }
      PassStatus(present);
      return Ok;
    }

    method PassStatus(present: bool)
      requires Inv(cfg, conn, hs, Ok) && hs.state == ReadCertificateStatus
      requires present ==> cfg.certificateAuth && cfg.statusExpected && Heads(conn, CertificateStatus)
      modifies this`hs, this`conn
      ensures Inv(cfg, conn, hs, Ok) && hs == old(hs).(status := present, state := VerifyServerCertificate)
    {
      if present { TakeStatus(); } else { NoStatus(); }
    }

    method TakeStatus()
      requires Inv(cfg, conn, hs, Ok) && hs.state == ReadCertificateStatus && cfg.certificateAuth && cfg.statusExpected
      requires conn.inbox != [] && conn.inbox[0].kind == CertificateStatus
      modifies this`hs, this`conn
      ensures Inv(cfg, conn, hs, Ok) && hs == old(hs).(status := true, state := VerifyServerCertificate)
    {
      Rely(cfg, conn, hs, Ok);
      ghost var settled := Settled(cfg, hs);
      ghost var with := settled.(status := true);
      SettleFrom(conn, settled, with, 3);
      var ok;
      ok, conn := Take(conn, true, with, 3);
      hs := hs.(status := true, state := VerifyServerCertificate);
      Reach(cfg, conn, hs, Ok, with, 4);
    }

    method NoStatus()
      requires Inv(cfg, conn, hs, Ok) && hs.state == ReadCertificateStatus
      modifies this`hs
      ensures Inv(cfg, conn, hs, Ok) && hs == old(hs).(status := false, state := VerifyServerCertificate)
    {
      Rely(cfg, conn, hs, Ok);
      ghost var settled := Settled(cfg, hs);
      hs := hs.(status := false, state := VerifyServerCertificate);
      SettleFrom(conn, settled, Settled(cfg, hs), 3);
      Skip(conn, Settled(cfg, hs), 3, Server(CertificateStatus));
      Reach(cfg, conn, hs, Ok, Settled(cfg, hs), 4);
    }

    method DoVerifyServerCertificate() returns (ret: Wait)
      requires Inv(cfg, conn, hs, Ok) && hs.state == VerifyServerCertificate
      modifies this`hs
      ensures Stepped(ret)
      ensures !cfg.certificateAuth || willing ==> ret == Ok
      ensures ret == Ok ==> hs == old(hs).(chainAccepted := hs.chainAccepted, state := ReadServerKeyExchange)
    {
      Rely(cfg, conn, hs, Ok);
      if cfg.certificateAuth {
        var verified, later := Ask();
        if later {
          Waits(cfg, conn, hs, CertificateVerifyPending);
          return CertificateVerifyPending;
        }
        if !verified {
          return Error;
        }
        hs := hs.(chainAccepted := true);
      }
      hs := hs.(state := ReadServerKeyExchange);
      Reach(cfg, conn, hs, Ok, old(Settled(cfg, hs)), 4);
      return Ok;
    }

    method DoReadServerKeyExchange() returns (ret: Wait)
      requires Inv(cfg, conn, hs, Ok) && hs.state == ReadServerKeyExchange
      modifies this`hs, this`conn
      ensures Stepped(ret)
      ensures ret == ReadMessage <==> old(conn).inbox == []
      ensures old(conn).inbox != [] && old(conn).inbox[0].kind != ServerKeyExchange ==>
        ret == if cfg.requiresKeyExchange then Error else Ok
      ensures willing && Heads(old(conn), ServerKeyExchange) ==> ret == Ok
      ensures ret == Ok ==> (hs.keyExchange <==> Heads(old(conn), ServerKeyExchange))
      ensures ret == Ok ==>
        hs == old(hs).(keyExchange := hs.keyExchange, paramsSigned := hs.paramsSigned, state := ReadCertificateRequest)
    {
      Rely(cfg, conn, hs, Ok);
      ghost var settled := Settled(cfg, hs);
      var msg := GetMessage(conn);
      if msg.None? {
        NeedsPeer(cfg, conn, hs);
        return ReadMessage;
      }
      if msg.value.kind != ServerKeyExchange {
        if cfg.requiresKeyExchange {
          return Error;
        }
        Skip(conn, settled, 4, Server(ServerKeyExchange));
        hs := hs.(state := ReadCertificateRequest);
        Reach(cfg, conn, hs, Ok, settled, 5);
        return Ok;
      }
      var ok, _ := Ask();
      var signatureValid, _ := Ask();
      if !ok || (cfg.certificateAuth && !signatureValid) {
        return Error;
      }
      TakeKeyExchange(settled);
      var next := hs.(keyExchange := true, paramsSigned := cfg.certificateAuth, state := ReadCertificateRequest);
      AfterKeyExchange(cfg, old(conn), conn, hs, next);
      hs := next;
      return Ok;
    }

    method TakeKeyExchange(ghost settled: Choices)
      requires Along(conn, settled, 4, false) && !conn.server && !settled.resumed
      requires conn.inbox != [] && conn.inbox[0].kind == ServerKeyExchange
      modifies this`conn
      ensures Along(conn, settled.(keyExchange := true), 5, false) && conn.Like(old(conn)) && conn.LiveLike(old(conn))
      ensures conn.past.sessionHash == old(conn.past.sessionHash)
    {
      ghost var with := settled.(keyExchange := true);
      SettleFrom(conn, settled, with, 4);
      var ok;
      ok, conn := Take(conn, true, with, 4);
    }

    method DoReadCertificateRequest() returns (ret: Wait)
      requires Inv(cfg, conn, hs, Ok) && hs.state == ReadCertificateRequest
      modifies this`hs, this`conn
      ensures Stepped(ret)
      ensures if !cfg.certificateAuth then ret == Ok && !hs.certRequest
              else RequestAnswer(old(conn), hs.certRequest, ret)
      ensures willing && Heads(old(conn), CertificateRequest) ==> ret == Ok
      ensures ret == Ok && cfg.certificateAuth ==> conn.buffer.Some? == hs.certRequest
      ensures ret == Ok ==> hs == old(hs).(certRequest := hs.certRequest, state := ReadServerHelloDone)
    {
      if cfg.certificateAuth {
        ret := ReadRequest();
      } else {
        PassRequest();
        ret := Ok;
      }
    }

    /** A server that authenticates itself may ask the client to do so too. */
    method ReadRequest() returns (ret: Wait)
      requires Inv(cfg, conn, hs, Ok) && hs.state == ReadCertificateRequest && cfg.certificateAuth
      modifies this`hs, this`conn
      ensures ret == Error || Inv(cfg, conn, hs, ret)
      ensures ret == Ok || (ret == Error && !willing) || Answers(cfg, conn, hs, ret)
      ensures RequestAnswer(old(conn), hs.certRequest, ret)
      ensures willing && Heads(old(conn), CertificateRequest) ==> ret == Ok
      ensures ret == Ok ==> conn.buffer.Some? == hs.certRequest
      ensures ret == Ok ==> hs == old(hs).(certRequest := hs.certRequest, state := ReadServerHelloDone)
    {
      var msg := GetMessage(conn);
      if msg.None? {
        NeedsPeer(cfg, conn, hs);
        return ReadMessage;
      }
      if msg.value.kind == ServerHelloDone {
        NoRequest();
        return Ok;
      }
      var ok, _ := Ask();
      if msg.value.kind != CertificateRequest || !ok {
        return Error;
      }
      AcceptRequest();
      return Ok;
    }

    /** A server that does not authenticate itself asks for nothing. */
    method PassRequest()
      requires Inv(cfg, conn, hs, Ok) && hs.state == ReadCertificateRequest && !cfg.certificateAuth
      modifies this`hs
      ensures Inv(cfg, conn, hs, Ok) && hs == old(hs).(state := ReadServerHelloDone) && !hs.certRequest
    {
      Rely(cfg, conn, hs, Ok);
      ghost var settled := Settled(cfg, hs);
      Skip(conn, settled, 5, Server(CertificateRequest));
      hs := hs.(state := ReadServerHelloDone);
      Reach(cfg, conn, hs, Ok, settled, 6);
    }

    method AcceptRequest()
      requires Inv(cfg, conn, hs, Ok) && hs.state == ReadCertificateRequest && cfg.certificateAuth
      requires Heads(conn, CertificateRequest)
      modifies this`hs, this`conn
      ensures Inv(cfg, conn, hs, Ok) && hs == old(hs).(certRequest := true, state := ReadServerHelloDone)
      ensures conn.buffer.Some?
    {
      Rely(cfg, conn, hs, Ok);
      ghost var settled := Settled(cfg, hs);
      TakeRequest(settled);
      hs := hs.(certRequest := true, state := ReadServerHelloDone);
      Reach(cfg, conn, hs, Ok, settled.(certRequest := true), 6);
    }

    /** No CertificateVerify will be signed, so the buffer goes. */
    method NoRequest()
      requires Inv(cfg, conn, hs, Ok) && hs.state == ReadCertificateRequest
      modifies this`hs, this`conn
      ensures Inv(cfg, conn, hs, Ok) && hs == old(hs).(state := ReadServerHelloDone) && !hs.certRequest
      ensures conn.buffer.None?
    {
      Rely(cfg, conn, hs, Ok);
      ghost var settled := Settled(cfg, hs);
      Skip(conn, settled, 5, Server(CertificateRequest));
      conn := FreeBuffer(conn, settled, 6, false);
      hs := hs.(state := ReadServerHelloDone);
      Reach(cfg, conn, hs, Ok, settled, 6);
    }

    method TakeRequest(ghost settled: Choices)
      requires Along(conn, settled, 5, false) && !conn.server && !settled.resumed
      requires conn.inbox != [] && conn.inbox[0].kind == CertificateRequest
      modifies this`conn
      ensures Along(conn, settled.(certRequest := true), 6, false) && conn.Like(old(conn)) && conn.LiveLike(old(conn))
      ensures conn.past.sessionHash == old(conn.past.sessionHash)
    {
      ghost var with := settled.(certRequest := true);
      SettleFrom(conn, settled, with, 5);
      var ok;
      ok, conn := Take(conn, true, with, 5);
    }

    method DoReadServerHelloDone() returns (ret: Wait)
      requires Inv(cfg, conn, hs, Ok) && hs.state == ReadServerHelloDone
      modifies this`hs, this`conn
      ensures Stepped(ret)
      ensures ret == if old(conn).inbox == [] then ReadMessage
                     else if old(conn).inbox[0].kind == ServerHelloDone && old(conn).inbox[0].body == [] then Ok
                     else Error
      ensures ret == Ok ==> hs == old(hs).(state := SendClientCertificate)
    {
      Rely(cfg, conn, hs, Ok);
      ghost var settled := Settled(cfg, hs);
      var msg := GetMessage(conn);
      if msg.None? {
        NeedsPeer(cfg, conn, hs);
        return ReadMessage;
      }
      if msg.value.kind != ServerHelloDone {
        return Error;
      }
      var ok := TakeDone(settled);
      if !ok {
        return Error;
      }
      hs := hs.(state := SendClientCertificate);
      Reach(cfg, conn, hs, Ok, settled, 7);
      return Ok;
    }

    method TakeDone(ghost settled: Choices) returns (ok: bool)
      requires Along(conn, settled, 6, false) && !conn.server && !settled.resumed
      requires conn.inbox != [] && conn.inbox[0].kind == ServerHelloDone
      modifies this`conn
      ensures (ok <==> old(conn).inbox[0].body == []) && (!ok ==> conn.inbox == old(conn).inbox)
      ensures ok ==> Along(conn, settled, 7, false) && conn.Like(old(conn)) && conn.LiveLike(old(conn))
      ensures ok ==> conn.past.sessionHash == old(conn).past.sessionHash
    {
      ok, conn := Take(conn, conn.inbox[0].body == [], settled, 6);
    }

    method DoSendClientCertificate() returns (ret: Wait)
      requires Inv(cfg, conn, hs, Ok) && hs.state == SendClientCertificate
      modifies this`hs, this`conn
      ensures Stepped(ret)
      ensures !old(hs.certRequest) || willing ==> ret == Ok
      ensures ret == Ok ==> hs == old(hs).(clientKey := hs.clientKey, state := SendClientKeyExchange)
      ensures ret == X509Lookup ==> conn == old(conn) && hs == old(hs)
      ensures ret == Ok ==> conn.buffer.Some? == (old(conn).buffer.Some? && (old(hs.certRequest) ==> hs.clientKey))
    {
      Rely(cfg, conn, hs, Ok);
      ghost var settled := Settled(cfg, hs);
      if !hs.certRequest {
        Skip(conn, settled, 7, Client(Certificate));
        hs := hs.(state := SendClientKeyExchange);
        Reach(cfg, conn, hs, Ok, settled, 8);
        return Ok;
      }
      var hasCertificate: bool := *;
      var ok, later := Ask();
      if later {
        Waits(cfg, conn, hs, X509Lookup);
        return X509Lookup;
      }
      if !ok {
        return Error;
      }
      SendCertificate(settled, hasCertificate);
      hs := hs.(clientKey := hasCertificate, state := SendClientKeyExchange);
      Reach(cfg, conn, hs, Ok, settled.(clientKey := hasCertificate), 8);
      return Ok;
    }

    method SendCertificate(ghost settled: Choices, hasCertificate: bool)
      requires Along(conn, settled, 7, false) && !conn.server && conn.hashed.Some?
      requires !settled.resumed && settled.certRequest
      modifies this`conn
      ensures Along(conn, settled.(clientKey := hasCertificate), 8, false) && conn.Like(old(conn)) && conn.hashed.Some?
      ensures conn.buffer.Some? == (old(conn.buffer.Some?) && hasCertificate)
      ensures conn.past.sessionHash == old(conn.past.sessionHash)
    {
      var body: bytes, raw: bytes := *, *;
      ghost var with := settled.(clientKey := hasCertificate);
      SettleFrom(conn, settled, with, 7);
      if !hasCertificate {
        // There will be no CertificateVerify to sign.
        conn := FreeBuffer(conn, with, 7, false);
      }
      conn := AddMessage(conn, Certificate, body, raw, with, 7);
    }

    method DoSendClientKeyExchange() returns (ret: Wait)
      requires Inv(cfg, conn, hs, Ok) && hs.state == SendClientKeyExchange
      modifies this`hs, this`conn
      ensures Stepped(ret)
      ensures (ret == Ok || ret == Error) && (willing ==> ret == Ok)
      ensures ret == Ok ==> hs == old(hs).(sessionHash := hs.sessionHash, state := SendClientCertificateVerify)
    {
      Rely(cfg, conn, hs, Ok);
      var body: bytes, raw: bytes := *, *;
      var ok, _ := Ask();
      if !ok {
        return Error;
      }
      conn := AddMessage(conn, ClientKeyExchange, body, raw, Settled(cfg, hs), 8);
      hs := hs.(sessionHash := conn.hashed.value, state := SendClientCertificateVerify);
      Reach(cfg, conn, hs, Ok, old(Settled(cfg, hs)), 9);
      return Ok;
    }

    method DoSendClientCertificateVerify() returns (ret: Wait)
      requires Inv(cfg, conn, hs, Ok) && hs.state == SendClientCertificateVerify
      modifies this`hs, this`conn
      ensures Stepped(ret)
      ensures !old(hs.clientKey) || willing ==> ret == Ok
      ensures ret == Ok ==> hs == old(hs).(state := SendClientFinished)
      ensures ret == PrivateKeyOperation ==> conn == old(conn) && hs == old(hs)
    {
      Rely(cfg, conn, hs, Ok);
      ghost var settled := Settled(cfg, hs);
      if !hs.clientKey {
        Skip(conn, settled, 9, Client(CertificateVerify));
        hs := hs.(state := SendClientFinished);
        Reach(cfg, conn, hs, Ok, settled, 10);
        return Ok;
      }
      var raw: bytes := *;
      var ok, later := Ask();
      if !ok {
        return Error;
      }
      if later {
        Waits(cfg, conn, hs, PrivateKeyOperation);
        return PrivateKeyOperation;
      }
      SendVerify(raw, settled);
      hs := hs.(state := SendClientFinished);
      Reach(cfg, conn, hs, Ok, settled, 10);
      return Ok;
    }

    /** The signature covers the buffer, which is not needed after that. */
    method SendVerify(raw: bytes, ghost settled: Choices)
      requires Along(conn, settled, 9, false) && !conn.server && conn.hashed.Some? && conn.buffer.Some?
      requires !settled.resumed && settled.clientKey
      modifies this`conn
      ensures Along(conn, settled, 10, false) && conn.Like(old(conn)) && conn.hashed.Some? && conn.buffer.None?
      ensures conn.past.sessionHash == old(conn.past.sessionHash)
    {
      Digested(conn, settled, 9, false);
      conn := AddMessage(conn, CertificateVerify, conn.crypto.sign(conn.buffer.value), raw, settled, 9);
      conn := FreeBuffer(conn, settled, 10, false);
    }

    method DoSendClientFinished() returns (ret: Wait)
      requires Inv(cfg, conn, hs, Ok) && hs.state == SendClientFinished
      modifies this`hs, this`conn
      ensures Stepped(ret)
      ensures ret == Flush ==> hs == old(hs).(state := FinishFlight)
      ensures willing ==> ret == Flush
      ensures ret == ChannelIdLookup ==> cfg.channelId && conn == old(conn) && hs == old(hs)
    {
      Rely(cfg, conn, hs, Ok);
      // What may have to be retried comes before anything is sent.
      var ok, later := Ask();
      if cfg.channelId && later {
        Waits(cfg, conn, hs, ChannelIdLookup);
        return ChannelIdLookup;
      }
      if !ok {
        return Error;
      }
      ghost var k := if hs.session then 5 else 10;
      SendFlight(Settled(cfg, hs), k);
      hs := hs.(state := FinishFlight);
      Reach(cfg, conn, hs, Flush, old(Settled(cfg, hs)), k + 4);
      return Flush;
    }

    /** ChangeCipherSpec, the messages that follow it, and Finished. */
    method SendFlight(ghost settled: Choices, ghost k: nat)
      requires Along(conn, settled, k, false) && !conn.server && conn.hashed.Some?
      requires k == PlaceOf(settled.resumed, ClientCcs)
      requires settled.nextProto == cfg.nextProto && settled.channelId == cfg.channelId
      modifies this`conn
      ensures Along(conn, settled, k + 4, false)
      ensures conn.Like(old(conn)) && conn.LiveLike(old(conn)) && conn.past.sessionHash == old(conn.past.sessionHash)
    {
      conn := ChangeWriteKeys(conn, settled, k);
      SendProtocols(settled, k + 1);
      var raw: bytes := *;
      conn := SendFinished(conn, raw, settled, k + 3);
    }

    method SendProtocols(ghost settled: Choices, ghost k: nat)
      requires Along(conn, settled, k, false) && !conn.server
      requires k == PlaceOf(settled.resumed, Client(NextProto))
      requires settled.nextProto == cfg.nextProto && settled.channelId == cfg.channelId
      modifies this`conn
      ensures Along(conn, settled, k + 2, false)
      ensures conn.Like(old(conn)) && conn.LiveLike(old(conn)) && conn.past.sessionHash == old(conn.past.sessionHash)
    {
      var body: bytes, raw: bytes, id: bytes, framed: bytes := *, *, *, *;
      if cfg.nextProto {
        conn := AddMessage(conn, NextProto, body, raw, settled, k);
      } else {
        Skip(conn, settled, k, Client(NextProto));
      }
      if cfg.channelId {
        conn := AddMessage(conn, ChannelId, id, framed, settled, k + 1);
      } else {
        Skip(conn, settled, k + 1, Client(ChannelId));
      }
    }

    method DoFinishFlight() returns (ret: Wait)
      requires Inv(cfg, conn, hs, Ok) && hs.state == FinishFlight
      modifies this`hs
      ensures Stepped(ret)
      ensures
        || ret == (if !hs.session && cfg.falseStart then EarlyReturn else Ok)
        || (ret == Error && !hs.session && !willing)
      ensures ret != Error ==> hs == old(hs).(state := if hs.session then FinishClientHandshake else ReadSessionTicket)
    {
      Rely(cfg, conn, hs, Ok);
      if hs.session {
        hs := hs.(state := FinishClientHandshake);
        Reach(cfg, conn, hs, Ok, old(Settled(cfg, hs)), 9);
        return Ok;
      }
      // The handshake's hashes go into the session, for Channel ID in later handshakes.
      var recorded, _ := Ask();
      if !recorded {
        return Error;
      }
      hs := hs.(state := ReadSessionTicket);
      if cfg.falseStart {
        Reach(cfg, conn, hs, EarlyReturn, old(Settled(cfg, hs)), 14);
        return EarlyReturn;
      }
      Reach(cfg, conn, hs, Ok, old(Settled(cfg, hs)), 14);
      return Ok;
    }

    method TakeTicket(ghost settled: Choices, ghost k: nat) returns (ok: bool)
      requires Along(conn, settled, k, false) && !conn.server && settled.ticket
        && k == (if settled.resumed then 2 else 14)
      requires conn.inbox != [] && conn.inbox[0].kind == NewSessionTicket
      modifies this`conn
      ensures willing ==> ok
      ensures ok ==> Along(conn, settled, k + 1, false) && conn.Like(old(conn)) && conn.LiveLike(old(conn))
      ensures ok ==> conn.past.sessionHash == old(conn).past.sessionHash
    {
      var readable, _ := Ask();
      ok, conn := Take(conn, readable, settled, k);
    }

    method DoReadSessionTicket() returns (ret: Wait)
      requires Inv(cfg, conn, hs, Ok) && hs.state == ReadSessionTicket
      modifies this`hs, this`conn
      ensures Stepped(ret)
      ensures if !cfg.ticketExpected then ret == ReadCcs else Needs(old(conn), NewSessionTicket, ret)
      ensures willing && Heads(old(conn), NewSessionTicket) ==> ret == ReadCcs
      ensures ret == ReadCcs ==> hs == old(hs).(state := ProcessChangeCipherSpec)
    {
      if cfg.ticketExpected {
        var msg := GetMessage(conn);
        if msg.None? {
          NeedsPeer(cfg, conn, hs);
          return ReadMessage;
        }
        if msg.value.kind != NewSessionTicket {
          return Error;
        }
      }
      var ok := PassTicket();
      return if ok then ReadCcs else Error;
    }

    /** The ticket is taken, or there is none. */
    method PassTicket() returns (ok: bool)
      requires Inv(cfg, conn, hs, Ok) && hs.state == ReadSessionTicket
      requires cfg.ticketExpected ==> conn.inbox != [] && conn.inbox[0].kind == NewSessionTicket
      modifies this`hs, this`conn
      ensures !cfg.ticketExpected || willing ==> ok
      ensures !ok || (Inv(cfg, conn, hs, ReadCcs) && hs == old(hs).(state := ProcessChangeCipherSpec))
    {
      Rely(cfg, conn, hs, Ok);
      ghost var settled, k := Settled(cfg, hs), if hs.session then 2 else 14;
      ok := true;
      if cfg.ticketExpected {
        ok := TakeTicket(settled, k);
        if !ok {
          return;
        }
      } else {
        Skip(conn, settled, k, Server(NewSessionTicket));
      }
      hs := hs.(state := ProcessChangeCipherSpec);
      Reach(cfg, conn, hs, ReadCcs, settled, k + 1);
    }

    method DoProcessChangeCipherSpec() returns (ret: Wait)
      requires Inv(cfg, conn, hs, Ok) && hs.state == ProcessChangeCipherSpec
      modifies this`hs, this`conn
      ensures Stepped(ret)
      ensures ret == Error || (ret == Ok && old(conn).inbox == [] && !old(conn).leftover)
      ensures willing ==> ret == if old(conn).inbox == [] && !old(conn).leftover then Ok else Error
      ensures ret == Ok ==> hs == old(hs).(state := ReadServerFinished)
      ensures old(conn.ccsArrived)
    {
      Rely(cfg, conn, hs, Ok);
      var derived, _ := Ask();
      var ok;
      ghost var k := if hs.session then 3 else 15;
      ok, conn := ChangeReadKeys(conn, Settled(cfg, hs), k);
      if !ok || !derived {
        return Error;
      }
      hs := hs.(state := ReadServerFinished);
      Reach(cfg, conn, hs, Ok, old(Settled(cfg, hs)), k + 1);
      return Ok;
    }

    method TakeFinished() returns (got: Wait)
      requires Inv(cfg, conn, hs, Ok) && hs.state == ReadServerFinished
      modifies this`conn
      ensures got == FinishedAnswer(old(conn)) && (got == ReadMessage ==> conn == old(conn))
      ensures (got == Ok || Answers(cfg, conn, hs, got)) && (got != ReadMessage || Inv(cfg, conn, hs, ReadMessage))
      ensures got != Ok || Inv(cfg, conn, FinishedNext(hs), Ok)
    {
      Rely(cfg, conn, hs, Ok);
      ghost var k := if hs.session then 4 else 16;
      got, conn := GetFinished(conn, Settled(cfg, hs), k);
      if got == Ok {
        AfterServerFinished(cfg, conn, hs);
      } else if got == ReadMessage {
        NeedsPeer(cfg, conn, hs);
      }
    }

    method DoReadServerFinished() returns (ret: Wait)
      requires Inv(cfg, conn, hs, Ok) && hs.state == ReadServerFinished
      modifies this`hs, this`conn
      ensures Stepped(ret)
      ensures ret == FinishedAnswer(old(conn))
      ensures ret == Ok ==> hs == old(hs).(state := if hs.session then SendClientFinished else FinishClientHandshake)
    {
      var got := TakeFinished();
      if got != Ok {
        return got;
      }
      hs := FinishedNext(hs);
      return Ok;
    }

    method DoFinishClientHandshake() returns (ret: Wait)
      requires Inv(cfg, conn, hs, Ok) && hs.state == FinishClientHandshake
      modifies this`hs
      ensures Stepped(ret)
      ensures ret == Ok && hs == old(hs).(state := Done)
    {
      Rely(cfg, conn, hs, Ok);
      hs := hs.(state := Done);
      Reach(cfg, conn, hs, Ok, old(Settled(cfg, hs)), if hs.session then 9 else 17);
      return Ok;
    }

    /** The machine, from wherever it stands until it is done or has to wait. */
    method Handshake() returns (ret: Wait)
      requires Inv(cfg, conn, hs, Ok)
      modifies this`hs, this`conn
      ensures ret == Error || Inv(cfg, conn, hs, ret)
      ensures ret == Ok ==> hs.state == Done
      ensures willing ==> ret == Ok || Answers(cfg, conn, hs, ret)
    {
      while hs.state != Done
        invariant Inv(cfg, conn, hs, Ok)
        decreases Rank(hs.state, hs.session)
      {
        match hs.state {
          case StartConnect => ret := DoStartConnect();
          case EnterEarlyData => ret := DoEnterEarlyData();
          case ReadHelloVerifyRequest => ret := DoReadHelloVerifyRequest();
          case ReadServerHelloMsg => ret := DoReadServerHello();
          case ReadServerCertificate => ret := DoReadServerCertificate();
          case ReadCertificateStatus => ret := DoReadCertificateStatus();
          case VerifyServerCertificate => ret := DoVerifyServerCertificate();
          case ReadServerKeyExchange => ret := DoReadServerKeyExchange();
          case ReadCertificateRequest => ret := DoReadCertificateRequest();
          case ReadServerHelloDone => ret := DoReadServerHelloDone();
          case SendClientCertificate => ret := DoSendClientCertificate();
          case SendClientKeyExchange => ret := DoSendClientKeyExchange();
          case SendClientCertificateVerify => ret := DoSendClientCertificateVerify();
          case SendClientFinished => ret := DoSendClientFinished();
          case FinishFlight => ret := DoFinishFlight();
          case ReadSessionTicket => ret := DoReadSessionTicket();
          case ProcessChangeCipherSpec => ret := DoProcessChangeCipherSpec();
          case ReadServerFinished => ret := DoReadServerFinished();
          case FinishClientHandshake => ret := DoFinishClientHandshake();
        }
        if ret != Ok {
          return;
        }
      }
      return Ok;
    }

    /** Over TLS only what is waited for is taken; over DTLS the rest is kept for later. */
    method Arrive()
      requires wait != Error && Inv(cfg, conn, hs, wait)
      modifies this`conn
      ensures Inv(cfg, conn, hs, wait) && old(conn).inbox <= conn.inbox && (old(conn).ccsArrived ==> conn.ccsArrived)
      ensures conn.inbox != old(conn).inbox ==> cfg.dtls || wait != ReadCcs
      ensures conn.ccsArrived != old(conn).ccsArrived ==> cfg.dtls || wait == ReadCcs
    {
      Rely(cfg, conn, hs, wait);
      var after := Arrives(conn, cfg.dtls || wait != ReadCcs, cfg.dtls || wait == ReadCcs,
                           Settled(cfg, hs), Place(hs.state, hs.session));
      ArrivedKeeps(cfg, conn, hs, wait, after);
      conn := after;
    }

    /**
     One turn of the loop that runs the handshake: whatever the machine waited for is resolved, or
     the call returns and will be made again; then the machine runs on.
     */
    method Run() returns (ret: Wait)
      requires Valid()
      modifies this
      ensures Valid() && ret == wait
      ensures old(wait) == Error ==> wait == Error
      ensures willing && old(wait) != Error && ret == Error ==> OutOfPlace(cfg, conn, hs)
      ensures ret == Ok ==> hs.state == Done
    {
      if wait == Error {
        return Error;
      }
      var ready: bool := *;
      if wait == Flush {
        if !ready {
          return wait;
        }
      } else if wait == ReadMessage || wait == ReadServerHello || wait == ReadCcs {
        Arrive();
        if (if wait == ReadCcs then !conn.ccsArrived else !ready) {
          return wait;
        }
      }
      Resolved(cfg, conn, hs, wait);
      wait := Handshake();
      return wait;
    }
  }
}
