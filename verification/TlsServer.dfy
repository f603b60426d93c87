/**
 The server's handshake machine for TLS 1.2 and below: one handler for each state, run in a loop
 that is left whenever a handler has to wait, and entered again at the same state.
 */
module TlsServer {
  import opened Wrappers
  import opened Bytes
  import opened TlsFlow
  import opened TlsConnection

  datatype State = StartAccept | ReadClientHello | SelectCertificate | SelectParameters | SendServerHello
                 | SendServerCertificate | SendServerKeyExchange | SendServerHelloDone | ReadClientCertificate
                 | VerifyClientCertificate | ReadClientKeyExchange | ReadClientCertificateVerify
                 | ReadChangeCipherSpec | ProcessChangeCipherSpec | ReadNextProto | ReadChannelId
                 | ReadClientFinished | SendServerFinished | FinishServerHandshake | Done

  /** What configuration and negotiation fix for the whole handshake. */
  datatype Config = Config(dtls: bool, handoff: bool, certificateAuth: bool, hasCertificate: bool, staple: bool,
                           keyExchange: bool, ecdhe: bool, verifyPeer: bool, verifyPeerIfNoObc: bool,
                           failIfNoPeerCert: bool, nextProto: bool, channelIdOffered: bool)

  /** The place in the flow where the machine stands in a state. */
  function Place(st: State, resumed: bool): nat
  {
    match st
    case StartAccept => 0
    case ReadClientHello => 0
    case SelectCertificate => 0
    case SelectParameters => 0
    case SendServerHello => 1
    case SendServerCertificate => 2
    case SendServerKeyExchange => 4
    case SendServerHelloDone => 5
    case ReadClientCertificate => 7
    case VerifyClientCertificate => 8
    case ReadClientKeyExchange => 8
    case ReadClientCertificateVerify => 9
    case ReadChangeCipherSpec => if resumed then 5 else 10
    case ProcessChangeCipherSpec => if resumed then 5 else 10
    case ReadNextProto => if resumed then 6 else 11
    case ReadChannelId => if resumed then 7 else 12
    case ReadClientFinished => if resumed then 8 else 13
    case SendServerFinished => if resumed then 2 else 14
    case FinishServerHandshake => if resumed then 9 else 17
    case Done => if resumed then 9 else 17
  }

  /** Distance to the end: resumption sends before it reads, so its states count in another order. */
  function Rank(st: State, resumed: bool): nat
  {
    match st
    case StartAccept => 25
    case ReadClientHello => 24
    case SelectCertificate => 23
    case SelectParameters => 22
    case SendServerHello => 21
    case SendServerCertificate => 19
    case SendServerKeyExchange => 18
    case SendServerHelloDone => 17
    case ReadClientCertificate => 16
    case VerifyClientCertificate => 15
    case ReadClientKeyExchange => 14
    case ReadClientCertificateVerify => 13
    case ReadChangeCipherSpec => 12
    case ProcessChangeCipherSpec => 11
    case ReadNextProto => 10
    case ReadChannelId => 9
    case ReadClientFinished => 8
    case SendServerFinished => if resumed then 20 else 7
    case FinishServerHandshake => 1
    case Done => 0
  }

  /**
   The machine's own variables. `session` says that it resumes one, `peerKey` that the client's chain
   is not empty, so that its key is known.
   */
  datatype Hs = Hs(state: State, session: bool, certRequest: bool, peerKey: bool, chainAccepted: bool,
                   params: bool, channelId: bool, ticketExpected: bool, sessionHash: bytes)

  function Settled(cfg: Config, hs: Hs): Choices
  {
    Choices(hs.session, cfg.certificateAuth, cfg.certificateAuth && cfg.staple, cfg.keyExchange, hs.certRequest,
            hs.peerKey, cfg.nextProto, hs.channelId, hs.ticketExpected)
  }

  /**
   What each state relies on: that the hash is set up once the parameters are known, that the buffer
   is kept for as long as a CertificateVerify may have to be checked, and that a client certificate
   has been accepted before anything is made of its key.
   */
  predicate StateFacts(cfg: Config, conn: Connection, hs: Hs, w: Wait)
  {
    match hs.state
    case StartAccept | ReadClientHello =>
      !hs.session && !hs.certRequest && !hs.peerKey && conn.hashed.None? && conn.buffer.Some?
    case SelectCertificate | SelectParameters =>
      && !hs.session && !hs.certRequest && !hs.peerKey && conn.hashed.None? && conn.buffer.Some?
      && conn.inbox != [] && conn.inbox[0].kind == ClientHello
    case SendServerHello =>
      !hs.peerKey && conn.hashed.Some? && (hs.certRequest ==> conn.buffer.Some?)
    case SendServerCertificate | SendServerHelloDone | ReadClientCertificate =>
      !hs.session && !hs.peerKey && conn.hashed.Some? && (hs.certRequest ==> conn.buffer.Some?)
    case SendServerKeyExchange =>
      && !hs.session && !hs.peerKey && conn.hashed.Some? && (hs.certRequest ==> conn.buffer.Some?)
      && hs.params == cfg.keyExchange
    case VerifyClientCertificate =>
      !hs.session && conn.hashed.Some? && (hs.peerKey ==> conn.buffer.Some?)
    case ReadClientKeyExchange | ReadClientCertificateVerify =>
      !hs.session && conn.hashed.Some? && (hs.peerKey ==> conn.buffer.Some? && hs.chainAccepted)
    case ProcessChangeCipherSpec =>
      conn.hashed.Some? && (hs.peerKey ==> hs.chainAccepted) && (conn.ccsArrived || w == ReadCcs)
    case _ =>
      conn.hashed.Some? && (hs.peerKey ==> hs.chainAccepted)
  }

  /** Whether a full handshake asks for a certificate: a Channel ID on offer may excuse the client. */
  predicate Requests(cfg: Config)
  {
    cfg.verifyPeer && !(cfg.verifyPeerIfNoObc && cfg.channelIdOffered) && cfg.certificateAuth
  }

  /** What the server asks of the client, and what of it has been met by place `k`. */
  predicate Asked(cfg: Config, hs: Hs, k: nat)
  {
    && (hs.certRequest <==> k >= 1 && !hs.session && Requests(cfg))
    && (hs.peerKey ==> hs.certRequest)
    && (k >= 8 && hs.certRequest && cfg.failIfNoPeerCert ==> hs.peerKey)
    && (hs.channelId ==> cfg.channelIdOffered && (k >= 2 ==> cfg.ecdhe))
    && (k == 0 || (!hs.session && cfg.ecdhe) ==> hs.channelId == cfg.channelIdOffered)
  }

  /** What holds at every place. */
  predicate Always(cfg: Config, conn: Connection, hs: Hs, k: nat)
  {
    && conn.server && conn.dropped == EMPTY
    && hs.sessionHash == conn.past.sessionHash
    && Asked(cfg, hs, k)
  }

  /** What holds between handlers, when the machine is about to wait for `w`. */
  ghost predicate Inv(cfg: Config, conn: Connection, hs: Hs, w: Wait)
  {
    forall a: Aspect :: Holds(cfg, conn, hs, w, a)
  }

  datatype Aspect = FlowSoFar | ThisState | EveryState

  ghost predicate Holds(cfg: Config, conn: Connection, hs: Hs, w: Wait, a: Aspect)
  {
    match a
    case FlowSoFar => Along(conn, Settled(cfg, hs), Place(hs.state, hs.session), false)
    case ThisState => StateFacts(cfg, conn, hs, w)
    case EveryState => Always(cfg, conn, hs, Place(hs.state, hs.session))
  }

  /** What a handler may rely on ... */
  lemma Rely(cfg: Config, conn: Connection, hs: Hs, w: Wait)
    requires Inv(cfg, conn, hs, w)
    ensures Along(conn, Settled(cfg, hs), Place(hs.state, hs.session), false)
    ensures StateFacts(cfg, conn, hs, w) && Always(cfg, conn, hs, Place(hs.state, hs.session))
  {
    assert Holds(cfg, conn, hs, w, FlowSoFar) && Holds(cfg, conn, hs, w, ThisState)
      && Holds(cfg, conn, hs, w, EveryState);
  }

  /** ... and has to reach. */
  lemma Reach(cfg: Config, conn: Connection, hs: Hs, w: Wait, settled: Choices, k: nat)
    requires Along(conn, settled, k, false) && settled == Settled(cfg, hs) && k == Place(hs.state, hs.session)
    requires w == Error || (StateFacts(cfg, conn, hs, w) && Always(cfg, conn, hs, k))
    ensures w == Error || Inv(cfg, conn, hs, w)
  {
    assert Along(conn, Settled(cfg, hs), Place(hs.state, hs.session), false);
  }

  /** Waiting changes nothing. */
  lemma Waits(cfg: Config, conn: Connection, hs: Hs, w: Wait)
    requires Inv(cfg, conn, hs, Ok)
    ensures Inv(cfg, conn, hs, w)
  {
    Rely(cfg, conn, hs, Ok);
    forall a: Aspect ensures Holds(cfg, conn, hs, w, a) {
    }
  }

  /** Why a machine gives up though it refuses nothing: what has come is not what its state calls for. */
  predicate OutOfPlace(cfg: Config, conn: Connection, hs: Hs)
  {
    match hs.state
    case ReadClientHello => Wrong(conn, ClientHello)
    case SendServerCertificate => cfg.certificateAuth && !cfg.hasCertificate
    case ReadClientCertificate => hs.certRequest && Wrong(conn, Certificate)
    case ReadClientKeyExchange => Wrong(conn, ClientKeyExchange)
    case ReadClientCertificateVerify => hs.peerKey && VerifyAnswer(conn) == Error
    case ProcessChangeCipherSpec => conn.inbox != [] || conn.leftover
    case ReadNextProto => cfg.nextProto && Wrong(conn, NextProto)
    case ReadChannelId => hs.channelId && Wrong(conn, ChannelId)
    case ReadClientFinished => FinishedAnswer(conn) == Error
    case _ => false
  }

  /**
   That is: it has no certificate to send, something is left under the old keys, or what has come is not the
   message that the flow has here, or has not the contents that the messages before it call for.
   */
  lemma OutOfPlaceIsOutOfFlow(cfg: Config, conn: Connection, hs: Hs)
    requires OutOfPlace(cfg, conn, hs) && conn.server
    requires hs.session ==> hs.state == ReadClientHello || Place(hs.state, true) >= 5
    requires hs.session ==> hs.state !in {ReadClientCertificate, ReadClientKeyExchange, ReadClientCertificateVerify}
    ensures var s := StepAt(hs.session, Place(hs.state, hs.session));
      || (hs.state == SendServerCertificate && cfg.certificateAuth && !cfg.hasCertificate)
      || (s == ClientCcs && (conn.inbox != [] || conn.leftover))
      || (s.Client? && Spoken(Settled(cfg, hs), s) && conn.inbox != []
            && var m := conn.inbox[0];
               || m.kind != s.kind
               || (m.kind == Finished && m.body != conn.crypto.verifyData(false, conn.past.messages))
               || (m.kind == CertificateVerify && !conn.crypto.signatureOk(m.body, conn.past.messages)))
  {
    match hs.state case _ =>
  }

  /** Where a willing machine stops: after a flight, where it needs the peer, and where the peer has gone wrong. */
  predicate Answers(cfg: Config, conn: Connection, hs: Hs, ret: Wait)
  {
    || ret == Flush
    || (ret == ReadMessage && conn.inbox == [])
    || (ret == ReadCcs && hs.state == ProcessChangeCipherSpec)
    || (ret == Handoff && cfg.handoff)
    || (ret == Error && OutOfPlace(cfg, conn, hs))
  }

  /** Without a message to go on with, the machine waits for one. */
  lemma NeedsPeer(cfg: Config, conn: Connection, hs: Hs)
    requires Inv(cfg, conn, hs, Ok) && conn.inbox == []
    ensures Inv(cfg, conn, hs, ReadMessage) && Answers(cfg, conn, hs, ReadMessage)
  {
    Waits(cfg, conn, hs, ReadMessage);
  }

  /** Where ServerHello leads. */
  lemma AfterHello(cfg: Config, conn: Connection, hs: Hs, next: Hs)
    requires next == hs.(state := if hs.session then SendServerFinished else SendServerCertificate)
    requires Along(conn, Settled(cfg, hs), 2, false) && Always(cfg, conn, hs, 2)
    requires conn.hashed.Some? && !hs.peerKey && (hs.certRequest ==> conn.buffer.Some?)
    ensures Inv(cfg, conn, next, Ok)
  {
    if hs.session {
      Reach(cfg, conn, next, Ok, Settled(cfg, hs), 2);
    } else {
      Reach(cfg, conn, next, Ok, Settled(cfg, hs), 2);
    }
  }

  /** The client's certificate has been taken. */
  lemma AfterCertificate(cfg: Config, was: Connection, conn: Connection, hs: Hs, next: Hs)
    requires next == hs.(peerKey := next.peerKey, state := VerifyClientCertificate)
    requires Always(cfg, was, hs, 7) && hs.certRequest && (cfg.failIfNoPeerCert ==> next.peerKey)
    requires Along(conn, Settled(cfg, next), 8, false) && conn.hashed.Some? && (next.peerKey ==> conn.buffer.Some?)
    requires conn.Like(was) && conn.past.sessionHash == was.past.sessionHash
    ensures Inv(cfg, conn, next, Ok)
  {
    Reach(cfg, conn, next, Ok, Settled(cfg, next), 8);
  }

  /** The client's Finished has been accepted. */
  ghost predicate PastFinished(cfg: Config, conn: Connection, hs: Hs)
  {
    && Along(conn, Settled(cfg, hs), if hs.session then 9 else 14, false) && Always(cfg, conn, hs, 9)
    && conn.hashed.Some? && (hs.peerKey ==> hs.chainAccepted)
  }

  /** Where the client's Finished leads. */
  function FinishedNext(hs: Hs): Hs
  {
    hs.(state := if hs.session then FinishServerHandshake else SendServerFinished)
  }

  lemma AfterClientFinished(cfg: Config, conn: Connection, hs: Hs)
    requires PastFinished(cfg, conn, hs)
    ensures Inv(cfg, conn, FinishedNext(hs), Ok)
  {
    if hs.session {
      Reach(cfg, conn, FinishedNext(hs), Ok, Settled(cfg, hs), 9);
    } else {
      Reach(cfg, conn, FinishedNext(hs), Ok, Settled(cfg, hs), 14);
    }
  }

  /** Where the server's leads. */
  lemma AfterServerFinished(cfg: Config, conn: Connection, hs: Hs, next: Hs, k: nat)
    requires next == hs.(state := if hs.session then ReadChangeCipherSpec else FinishServerHandshake)
    requires k == (if hs.session then 5 else 17) && Along(conn, Settled(cfg, hs), k, false) && Always(cfg, conn, hs, k)
    requires conn.hashed.Some? && (hs.peerKey ==> hs.chainAccepted)
    ensures Inv(cfg, conn, next, Flush)
  {
    if hs.session {
      Reach(cfg, conn, next, Flush, Settled(cfg, hs), k);
    } else {
      Reach(cfg, conn, next, Flush, Settled(cfg, hs), k);
    }
  }

  /** What comes in disturbs nothing. */
  lemma ArrivedKeeps(cfg: Config, conn: Connection, hs: Hs, w: Wait, after: Connection)
    requires w != Error && Inv(cfg, conn, hs, w) && Along(after, Settled(cfg, hs), Place(hs.state, hs.session), false)
    requires after == conn.(inbox := after.inbox, arrived := after.arrived, leftover := after.leftover,
      ccsArrived := after.ccsArrived)
    requires conn.inbox <= after.inbox && (conn.ccsArrived ==> after.ccsArrived)
    ensures Inv(cfg, after, hs, w)
  {
    Rely(cfg, conn, hs, w);
    Reach(cfg, after, hs, w, Settled(cfg, hs), Place(hs.state, hs.session));
  }

  /** What was waited for has come. */
  lemma Resolved(cfg: Config, conn: Connection, hs: Hs, w: Wait)
    requires Inv(cfg, conn, hs, w) && (w == ReadCcs ==> conn.ccsArrived)
    ensures Inv(cfg, conn, hs, Ok)
  {
    Rely(cfg, conn, hs, w);
    Reach(cfg, conn, hs, Ok, Settled(cfg, hs), Place(hs.state, hs.session));
  }

  /** Whether the client's certificate came with a key only matters for its CertificateVerify. */
  lemma SettleClientKey(c: Connection, before: Choices, after: Choices)
    requires Along(c, before, 7, true) && !before.resumed && after == before.(clientKey := after.clientKey)
    ensures Along(c, after, 7, true)
  {
    forall i: nat | i < 7 ensures Spoken(before, StepAt(false, i)) == Spoken(after, StepAt(false, i)) {
    }
    Settle(c, before, after, 7, true);
  }

  class ServerHandshake {
    const cfg: Config
    /** Whether nothing on this side refuses or puts off what it is asked for, and parsing finds no fault. */
    const willing: bool
    var conn: Connection
    var hs: Hs
    var wait: Wait

    /** After an error the machine is never run again. */
    ghost predicate Valid()
      reads this
    {
      wait != Error ==> Inv(cfg, conn, hs, wait)
    }

    twostate predicate Stepped(ret: Wait)
      reads this
    {
      && (ret == Error || Inv(cfg, conn, hs, ret))
      && (!willing || ret == Ok || Answers(cfg, conn, hs, ret))
      && (ret == Ok ==> Rank(hs.state, hs.session) < old(Rank(hs.state, hs.session)))
    }

    constructor (cfg: Config, crypto: Crypto, willing: bool)
      ensures Valid() && hs.state == StartAccept && wait == Ok && this.cfg == cfg && this.willing == willing
    {
      this.cfg, this.willing := cfg, willing;
      var start := Hs(StartAccept, false, false, false, false, false, cfg.channelIdOffered, false, []);
      var c := Fresh(true, crypto, Settled(cfg, start));
      Reach(cfg, c, start, Ok, Settled(cfg, start), 0);
      conn, hs, wait := c, start, Ok;
    }

    /** Something that may be refused, or put off until later. */
    method Ask() returns (granted: bool, later: bool)
      ensures willing ==> granted && !later
    {
      granted, later := *, *;
      if willing {
        granted, later := true, false;
      }
    }

    method DoStartAccept() returns (ret: Wait)
      requires Inv(cfg, conn, hs, Ok) && hs.state == StartAccept
      modifies this`hs
      ensures Stepped(ret)
      ensures ret == Ok && hs == old(hs).(state := ReadClientHello)
    {
      Rely(cfg, conn, hs, Ok);
      hs := hs.(state := ReadClientHello);
      Reach(cfg, conn, hs, Ok, old(Settled(cfg, hs)), 0);
      return Ok;
    }

    method DoReadClientHello() returns (ret: Wait)
      requires Inv(cfg, conn, hs, Ok) && hs.state == ReadClientHello
      modifies this`hs
      ensures Stepped(ret)
      ensures Needs(conn, ClientHello, ret)
      ensures willing && Heads(conn, ClientHello) ==> ret == if cfg.handoff then Handoff else Ok
      ensures hs == if ret == Ok then old(hs).(state := SelectCertificate) else old(hs)
    {
      Rely(cfg, conn, hs, Ok);
      var msg := GetMessage(conn);
      if msg.None? {
        NeedsPeer(cfg, conn, hs);
        return ReadMessage;
      }
      if msg.value.kind != ClientHello {
        return Error;
      }
      if cfg.handoff {
        Waits(cfg, conn, hs, Handoff);
        return Handoff;
      }
      var acceptable, selecting := Ask();
      if selecting {
        Waits(cfg, conn, hs, CertificateSelectionPending);
        return CertificateSelectionPending;
      }
      if !acceptable {
        return Error;
      }
      hs := hs.(state := SelectCertificate);
      Reach(cfg, conn, hs, Ok, old(Settled(cfg, hs)), 0);
      return Ok;
    }

    method DoSelectCertificate() returns (ret: Wait)
      requires Inv(cfg, conn, hs, Ok) && hs.state == SelectCertificate
      modifies this`hs
      ensures Stepped(ret)
      ensures ret != ReadMessage && hs == if ret == Ok then old(hs).(state := SelectParameters) else old(hs)
      ensures willing ==> ret == Ok
    {
      Rely(cfg, conn, hs, Ok);
      var msg := GetMessage(conn);
      if msg.None? {
        NeedsPeer(cfg, conn, hs);
        return ReadMessage;
      }
      var sharedCipher, lookup := Ask();
      if lookup {
        Waits(cfg, conn, hs, X509Lookup);
        return X509Lookup;
      }
      if !sharedCipher {
        return Error;
      }
      hs := hs.(state := SelectParameters);
      Reach(cfg, conn, hs, Ok, old(Settled(cfg, hs)), 0);
      return Ok;
    }

    method DoSelectParameters() returns (ret: Wait)
      requires Inv(cfg, conn, hs, Ok) && hs.state == SelectParameters
      modifies this`hs, this`conn
      ensures Stepped(ret)
      ensures ret != ReadMessage && (ret == Ok ==> hs.state == SendServerHello && hs.channelId == old(hs.channelId))
      ensures willing ==> ret == Ok
      ensures ret == Ok ==> conn.buffer.Some? == hs.certRequest
      ensures ret == Ok ==>
        (hs.certRequest <==> !hs.session && cfg.certificateAuth && cfg.verifyPeer
                             && !(cfg.verifyPeerIfNoObc && cfg.channelIdOffered))
      ensures ret == PendingTicket || ret == PendingSession ==> conn == old(conn) && hs == old(hs)
    {
      Rely(cfg, conn, hs, Ok);
      var msg := GetMessage(conn);
      if msg.None? {
        NeedsPeer(cfg, conn, hs);
        return ReadMessage;
      }
      var acceptable, pending := Ask();
      if pending {
        var pendingTicket: bool := *;
        ret := if pendingTicket then PendingTicket else PendingSession;
        Waits(cfg, conn, hs, ret);
        return;
      }
      if !acceptable {
        return Error;
      }
      DecideResumption();
      ghost var settled := Settled(cfg, hs);
      HashClientHello(settled);
      hs := hs.(state := SendServerHello);
      Reach(cfg, conn, hs, Ok, settled, 1);
      return Ok;
    }

    /** Resumes the client's session if there is one and it can be, and settles what follows from that. */
    method DecideResumption()
      requires Inv(cfg, conn, hs, Ok) && hs.state == SelectParameters
      modifies this`hs
      ensures Along(conn, Settled(cfg, hs), 0, false)
      ensures hs == old(hs).(session := hs.session, ticketExpected := hs.ticketExpected, certRequest := hs.certRequest)
      ensures hs.certRequest <==>
        !hs.session && cfg.certificateAuth && cfg.verifyPeer && !(cfg.verifyPeerIfNoObc && cfg.channelIdOffered)
    {
      Rely(cfg, conn, hs, Ok);
      var resumable: bool, renewTicket: bool, ticketsSupported: bool := *, *, *;
      ghost var before := Settled(cfg, hs);
      hs := hs.(session := resumable, ticketExpected := if resumable then renewTicket else ticketsSupported);
      if !hs.session {
        hs := hs.(certRequest := cfg.verifyPeer);
        if cfg.verifyPeerIfNoObc && hs.channelId {
          hs := hs.(certRequest := false);
        }
        if !cfg.certificateAuth {
          hs := hs.(certRequest := false);
        }
      }
      SettleEarly(conn, before, Settled(cfg, hs), 0);
    }

    /** From here on there is a hash; the buffer stays only where a CertificateVerify may have to be checked. */
    method HashClientHello(ghost settled: Choices)
      requires Along(conn, settled, 0, false) && conn.server && conn.buffer.Some?
      requires conn.inbox != [] && conn.inbox[0].kind == ClientHello
      modifies this`conn
      ensures Along(conn, settled, 1, false) && conn.Like(old(conn)) && conn.hashed.Some?
        && conn.buffer.Some? == hs.certRequest
      ensures conn.past.sessionHash == old(conn.past.sessionHash)
    {
      conn := InitHash(conn, settled, 0);
      conn := HashMessage(conn, settled, 0);
      if !hs.certRequest {
        conn := FreeBuffer(conn, settled, 0, true);
      }
      conn := NextMessage(conn, settled, 0);
    }

    /** Channel ID is given up without ECDHE, and in resuming a session that did not record its hashes. */
    method CheckChannelId()
      requires Inv(cfg, conn, hs, Ok) && hs.state == SendServerHello
      modifies this`hs
      ensures Inv(cfg, conn, hs, Ok) && hs == old(hs).(channelId := hs.channelId)
      ensures hs.channelId ==> old(hs.channelId) && cfg.ecdhe
      ensures !hs.session && cfg.ecdhe ==> hs.channelId == cfg.channelIdOffered
    {
      Rely(cfg, conn, hs, Ok);
      var originalHash: bool := *;
      ghost var before := Settled(cfg, hs);
      if !cfg.ecdhe || (hs.session && !originalHash) {
        hs := hs.(channelId := false);
      }
      SettleEarly(conn, before, Settled(cfg, hs), 1);
      Reach(cfg, conn, hs, Ok, Settled(cfg, hs), 1);
    }

    method DoSendServerHello() returns (ret: Wait)
      requires Inv(cfg, conn, hs, Ok) && hs.state == SendServerHello
      modifies this`hs, this`conn
      ensures Stepped(ret)
      ensures (ret == Ok || ret == Error) && (willing ==> ret == Ok)
      ensures ret == Ok ==>
        hs == old(hs).(channelId := hs.channelId,
                       state := if hs.session then SendServerFinished else SendServerCertificate)
      ensures hs.channelId ==> old(hs.channelId) && cfg.ecdhe
      ensures ret == Ok && !hs.session ==> (hs.channelId <==> cfg.channelIdOffered && cfg.ecdhe)
    {
      var ok, _ := Ask();
      CheckChannelId();
      if !ok {
        return Error;
      }
      SayHello();
      return Ok;
    }

    /** The hello goes out; what follows depends on whether a session is resumed. */
    method SayHello()
      requires Inv(cfg, conn, hs, Ok) && hs.state == SendServerHello && (hs.channelId ==> cfg.ecdhe)
      modifies this`hs, this`conn
      ensures Inv(cfg, conn, hs, Ok)
      ensures hs == old(hs).(state := if hs.session then SendServerFinished else SendServerCertificate)
    {
      var body: bytes, raw: bytes := *, *;
      Rely(cfg, conn, hs, Ok);
      AddHello(body, raw, Settled(cfg, hs));
      var next := hs.(state := if hs.session then SendServerFinished else SendServerCertificate);
      AfterHello(cfg, conn, hs, next);
      hs := next;
    }

    method AddHello(body: bytes, raw: bytes, ghost settled: Choices)
      requires Along(conn, settled, 1, false) && conn.server
      modifies this`conn
      ensures Along(conn, settled, 2, false) && conn.Like(old(conn)) && conn.LiveLike(old(conn))
      ensures conn.past.sessionHash == old(conn).past.sessionHash
    {
      conn := AddMessage(conn, ServerHello, body, raw, settled, 1);
    }

    method DoSendServerCertificate() returns (ret: Wait)
      requires Inv(cfg, conn, hs, Ok) && hs.state == SendServerCertificate
      modifies this`hs, this`conn
      ensures Stepped(ret)
      ensures ret == Ok || (ret == Error && cfg.certificateAuth)
      ensures willing ==> ret == if cfg.certificateAuth && !cfg.hasCertificate then Error else Ok
      ensures ret == Ok ==> hs == old(hs).(params := cfg.keyExchange, state := SendServerKeyExchange)
    {
      Rely(cfg, conn, hs, Ok);
      var ok := SendCertificates(Settled(cfg, hs));
      if !ok {
        return Error;
      }
      hs := hs.(params := cfg.keyExchange, state := SendServerKeyExchange);
      Reach(cfg, conn, hs, Ok, old(Settled(cfg, hs)), 4);
      return Ok;
    }

    /** The server's Certificate with the response stapled to it, where there are such. */
    method SendCertificates(ghost settled: Choices) returns (ok: bool)
      requires Along(conn, settled, 2, false) && settled == Settled(cfg, hs) && !hs.session && conn.server
      modifies this`conn
      ensures ok ==> Along(conn, settled, 4, false)
      ensures !cfg.certificateAuth || (willing && cfg.hasCertificate) ==> ok
      ensures ok ==> !cfg.certificateAuth || cfg.hasCertificate
      ensures conn.Like(old(conn)) && conn.LiveLike(old(conn)) && conn.past.sessionHash == old(conn.past.sessionHash)
    {
      if !cfg.certificateAuth {
        Skip(conn, settled, 2, Server(Certificate));
        Skip(conn, settled, 3, Server(CertificateStatus));
        return true;
      }
      var body: bytes, raw: bytes, response: bytes, framed: bytes := *, *, *, *;
      var added, _ := Ask();
      if !cfg.hasCertificate || !added {
        return false;
      }
      conn := AddMessage(conn, Certificate, body, raw, settled, 2);
      if cfg.staple {
        conn := AddMessage(conn, CertificateStatus, response, framed, settled, 3);
      } else {
        Skip(conn, settled, 3, Server(CertificateStatus));
      }
      return true;
    }

    method DoSendServerKeyExchange() returns (ret: Wait)
      requires Inv(cfg, conn, hs, Ok) && hs.state == SendServerKeyExchange
      modifies this`hs, this`conn
      ensures Stepped(ret)
      ensures !old(hs.params) || !cfg.certificateAuth || willing ==> ret == Ok
      ensures hs == if ret == Ok then old(hs).(params := false, state := SendServerHelloDone) else old(hs)
      ensures ret == PrivateKeyOperation ==> conn == old(conn)
    {
      Rely(cfg, conn, hs, Ok);
      ghost var settled := Settled(cfg, hs);
      if !hs.params {
        Skip(conn, settled, 4, Server(ServerKeyExchange));
        hs := hs.(state := SendServerHelloDone);
        Reach(cfg, conn, hs, Ok, settled, 5);
        return Ok;
      }
      var body: bytes, raw: bytes := *, *;
      if cfg.certificateAuth {
        var ok, later := Ask();
        if !ok {
          return Error;
        }
        if later {
          Waits(cfg, conn, hs, PrivateKeyOperation);
          return PrivateKeyOperation;
        }
      }
      conn := AddMessage(conn, ServerKeyExchange, body, raw, settled, 4);
      hs := hs.(params := false, state := SendServerHelloDone);
      Reach(cfg, conn, hs, Ok, settled, 5);
      return Ok;
    }

    method DoSendServerHelloDone() returns (ret: Wait)
      requires Inv(cfg, conn, hs, Ok) && hs.state == SendServerHelloDone
      modifies this`hs, this`conn
      ensures Stepped(ret)
      ensures ret == Flush || (ret == Error && old(hs.certRequest))
      ensures willing ==> ret == Flush
      ensures ret == Flush ==> hs == old(hs).(state := ReadClientCertificate)
    {
      Rely(cfg, conn, hs, Ok);
      ghost var settled := Settled(cfg, hs);
      var ok := SendHelloDone(settled);
      if !ok {
        return Error;
      }
      hs := hs.(state := ReadClientCertificate);
      Reach(cfg, conn, hs, Flush, settled, 7);
      return Flush;
    }

    /** The end of the server's first flight, with a request for a certificate before it. */
    method SendHelloDone(ghost settled: Choices) returns (ok: bool)
      requires Along(conn, settled, 5, false) && settled == Settled(cfg, hs) && !hs.session && conn.server
      modifies this`conn
      ensures (!hs.certRequest || willing ==> ok) && (ok ==> Along(conn, settled, 7, false))
      ensures conn.Like(old(conn)) && conn.LiveLike(old(conn)) && conn.past.sessionHash == old(conn).past.sessionHash
    {
      var body: bytes, raw: bytes, framed: bytes := *, *, *;
      if hs.certRequest {
        var added, _ := Ask();
        if !added {
          return false;
        }
        conn := AddMessage(conn, CertificateRequest, body, raw, settled, 5);
      } else {
        Skip(conn, settled, 5, Server(CertificateRequest));
      }
      conn := AddMessage(conn, ServerHelloDone, [], framed, settled, 6);
      return true;
    }

    method DoReadClientCertificate() returns (ret: Wait)
      requires Inv(cfg, conn, hs, Ok) && hs.state == ReadClientCertificate
      modifies this`hs, this`conn
      ensures Stepped(ret)
      ensures if !old(hs.certRequest) then ret == Ok else Needs(old(conn), Certificate, ret)
      ensures willing && Heads(old(conn), Certificate) ==> ret == Ok
      ensures ret == Ok ==> hs == old(hs).(peerKey := hs.peerKey, state := VerifyClientCertificate)
      ensures ret == Ok && cfg.failIfNoPeerCert && old(hs.certRequest) ==> hs.peerKey
      ensures ret == Ok ==> conn.buffer.Some? == (old(conn).buffer.Some? && (old(hs.certRequest) ==> hs.peerKey))
    {
      Rely(cfg, conn, hs, Ok);
      if !hs.certRequest {
        Skip(conn, Settled(cfg, hs), 7, Client(Certificate));
        hs := hs.(state := VerifyClientCertificate);
        Reach(cfg, conn, hs, Ok, old(Settled(cfg, hs)), 8);
        return Ok;
      }
      var msg := GetMessage(conn);
      if msg.None? {
        NeedsPeer(cfg, conn, hs);
        return ReadMessage;
      }
      if msg.value.kind != Certificate {
        return Error;
      }
      ret := TakeCertificate(Settled(cfg, hs));
    }

    method TakeCertificate(ghost settled: Choices) returns (ret: Wait)
      requires Inv(cfg, conn, hs, Ok) && hs.state == ReadClientCertificate && hs.certRequest
        && settled == Settled(cfg, hs)
      requires conn.inbox != [] && conn.inbox[0].kind == Certificate
      modifies this`hs, this`conn
      ensures Stepped(ret) && (ret == Ok || ret == Error) && (willing ==> ret == Ok)
      ensures ret == Ok ==> hs == old(hs).(peerKey := hs.peerKey, state := VerifyClientCertificate)
      ensures ret == Ok && cfg.failIfNoPeerCert ==> hs.peerKey
      ensures ret == Ok ==> conn.buffer.Some? == (old(conn).buffer.Some? && hs.peerKey)
    {
      Rely(cfg, conn, hs, Ok);
      conn := HashMessage(conn, settled, 7);
      var ok, peerKey := ParseChain();
      if !ok {
        return Error;
      }
      ConsumeCertificate(settled, peerKey);
      var next := hs.(peerKey := peerKey, state := VerifyClientCertificate);
      AfterCertificate(cfg, old(conn), conn, hs, next);
      hs := next;
      return Ok;
    }

    /** An empty chain is refused where a certificate is needed, and then a willing client has one to show. */
    method ParseChain() returns (ok: bool, peerKey: bool)
      ensures ok && cfg.failIfNoPeerCert ==> peerKey
      ensures willing ==> ok
    {
      var shown: bool := *;
      peerKey := shown || (willing && cfg.failIfNoPeerCert);
      var granted, _ := Ask();
      ok := granted && (peerKey || !cfg.failIfNoPeerCert);
    }

    method ConsumeCertificate(ghost settled: Choices, peerKey: bool)
      requires Along(conn, settled, 7, true) && conn.server && conn.hashed.Some? && conn.inbox != []
      requires conn.inbox[0].kind == Certificate && !settled.resumed && settled.certRequest
      modifies this`conn
      ensures Along(conn, settled.(clientKey := peerKey), 8, false) && conn.Like(old(conn)) && conn.hashed.Some?
      ensures conn.buffer.Some? == (old(conn.buffer.Some?) && peerKey)
      ensures conn.past.sessionHash == old(conn.past.sessionHash)
    {
      if !peerKey {
        // There will be no CertificateVerify to check.
        conn := FreeBuffer(conn, settled, 7, true);
      }
      SettleClientKey(conn, settled, settled.(clientKey := peerKey));
      conn := NextMessage(conn, settled.(clientKey := peerKey), 7);
    }

    method DoVerifyClientCertificate() returns (ret: Wait)
      requires Inv(cfg, conn, hs, Ok) && hs.state == VerifyClientCertificate
      modifies this`hs
      ensures Stepped(ret)
      ensures !old(hs.peerKey) || willing ==> ret == Ok
      ensures ret == Ok ==> hs == old(hs).(chainAccepted := hs.chainAccepted, state := ReadClientKeyExchange)
    {
      Rely(cfg, conn, hs, Ok);
      if hs.peerKey {
        var verified, later := Ask();
        if later {
          Waits(cfg, conn, hs, CertificateVerifyPending);
          return CertificateVerifyPending;
        }
        if !verified {
          return Error;
        }
        hs := hs.(chainAccepted := true);
      }
      hs := hs.(state := ReadClientKeyExchange);
      Reach(cfg, conn, hs, Ok, old(Settled(cfg, hs)), 8);
      return Ok;
    }

    method DoReadClientKeyExchange() returns (ret: Wait)
      requires Inv(cfg, conn, hs, Ok) && hs.state == ReadClientKeyExchange
      modifies this`hs, this`conn
      ensures Stepped(ret)
      ensures Needs(old(conn), ClientKeyExchange, ret)
      ensures willing && Heads(old(conn), ClientKeyExchange) ==> ret == Ok
      ensures ret == Ok ==> hs == old(hs).(sessionHash := hs.sessionHash, state := ReadClientCertificateVerify)
      ensures ret == PrivateKeyOperation ==> conn == old(conn) && hs == old(hs)
    {
      Rely(cfg, conn, hs, Ok);
      var msg := GetMessage(conn);
      if msg.None? {
        NeedsPeer(cfg, conn, hs);
        return ReadMessage;
      }
      if msg.value.kind != ClientKeyExchange {
        return Error;
      }
      var ok, later := Ask();
      if !ok {
        return Error;
      }
      if later {
        Waits(cfg, conn, hs, PrivateKeyOperation);
        return PrivateKeyOperation;
      }
      var secret := TakeKeyExchange(Settled(cfg, hs));
      hs := hs.(sessionHash := secret, state := ReadClientCertificateVerify);
      Reach(cfg, conn, hs, Ok, old(Settled(cfg, hs)), 9);
      return Ok;
    }

    /** The master secret is derived over the messages through this one. */
    method TakeKeyExchange(ghost settled: Choices) returns (secret: bytes)
      requires Along(conn, settled, 8, false) && conn.server && conn.hashed.Some? && !settled.resumed
      requires conn.inbox != [] && conn.inbox[0].kind == ClientKeyExchange
      modifies this`conn
      ensures Along(conn, settled, 9, false) && conn.Like(old(conn)) && conn.LiveLike(old(conn))
      ensures secret == conn.past.sessionHash
    {
      conn := HashMessage(conn, settled, 8);
      secret := conn.hashed.value;
      conn := NextMessage(conn, settled, 8);
    }

    method DoReadClientCertificateVerify() returns (ret: Wait)
      requires Inv(cfg, conn, hs, Ok) && hs.state == ReadClientCertificateVerify
      modifies this`hs, this`conn
      ensures Stepped(ret)
      ensures ret == if old(hs.peerKey) then VerifyAnswer(old(conn)) else Ok
      ensures ret == Ok ==> conn.buffer.None?
      ensures ret == Ok ==> hs == old(hs).(state := ReadChangeCipherSpec)
    {
      Rely(cfg, conn, hs, Ok);
      ghost var settled := Settled(cfg, hs);
      if !hs.peerKey {
        Skip(conn, settled, 9, Client(CertificateVerify));
        conn := FreeBuffer(conn, settled, 10, false);
        hs := hs.(state := ReadChangeCipherSpec);
        Reach(cfg, conn, hs, Ok, settled, 10);
        return Ok;
      }
      var msg := GetMessage(conn);
      if msg.None? {
        NeedsPeer(cfg, conn, hs);
        return ReadMessage;
      }
      if msg.value.kind != CertificateVerify {
        return Error;
      }
      var ok := TakeVerify(settled);
      if !ok {
        return Error;
      }
      hs := hs.(state := ReadChangeCipherSpec);
      Reach(cfg, conn, hs, Ok, settled, 10);
      return Ok;
    }

    /** The signature is checked over the buffer, which is not needed after that. */
    method TakeVerify(ghost settled: Choices) returns (ok: bool)
      requires Along(conn, settled, 9, false) && conn.server && conn.hashed.Some? && conn.buffer.Some?
      requires !settled.resumed && settled.clientKey && conn.inbox != [] && conn.inbox[0].kind == CertificateVerify
      modifies this`conn
      ensures ok == old(conn).crypto.signatureOk(old(conn).inbox[0].body, old(conn).past.messages)
      ensures !ok ==> conn == old(conn)
      ensures ok ==> Along(conn, settled, 10, false) && conn.Like(old(conn)) && conn.hashed.Some? && conn.buffer.None?
      ensures ok ==> conn.past.sessionHash == old(conn).past.sessionHash
    {
      Digested(conn, settled, 9, false);
      if !conn.crypto.signatureOk(conn.inbox[0].body, conn.buffer.value) {
        return false;
      }
      conn := FreeBuffer(conn, settled, 9, false);
      ok, conn := Take(conn, true, settled, 9);
    }

    method DoReadChangeCipherSpec() returns (ret: Wait)
      requires Inv(cfg, conn, hs, Ok) && hs.state == ReadChangeCipherSpec
      modifies this`hs
      ensures Stepped(ret)
      ensures ret == ReadCcs && hs == old(hs).(state := ProcessChangeCipherSpec)
    {
      Rely(cfg, conn, hs, Ok);
      hs := hs.(state := ProcessChangeCipherSpec);
      Reach(cfg, conn, hs, ReadCcs, old(Settled(cfg, hs)), if hs.session then 5 else 10);
      return ReadCcs;
    }

    method DoProcessChangeCipherSpec() returns (ret: Wait)
      requires Inv(cfg, conn, hs, Ok) && hs.state == ProcessChangeCipherSpec
      modifies this`hs, this`conn
      ensures Stepped(ret)
      ensures ret == Error || (ret == Ok && old(conn).inbox == [] && !old(conn).leftover)
      ensures willing ==> ret == if old(conn).inbox == [] && !old(conn).leftover then Ok else Error
      ensures ret == Ok ==> hs == old(hs).(state := ReadNextProto)
      ensures old(conn.ccsArrived)
    {
      Rely(cfg, conn, hs, Ok);
      var derived, _ := Ask();
      var ok;
      ghost var k := if hs.session then 5 else 10;
      ok, conn := ChangeReadKeys(conn, Settled(cfg, hs), k);
      if !ok || !derived {
        return Error;
      }
      hs := hs.(state := ReadNextProto);
      Reach(cfg, conn, hs, Ok, old(Settled(cfg, hs)), k + 1);
      return Ok;
    }

    method DoReadNextProto() returns (ret: Wait)
      requires Inv(cfg, conn, hs, Ok) && hs.state == ReadNextProto
      modifies this`hs, this`conn
      ensures Stepped(ret)
      ensures if !cfg.nextProto then ret == Ok else Needs(old(conn), NextProto, ret)
      ensures willing && Heads(old(conn), NextProto) ==> ret == Ok
      ensures ret == Ok ==> hs == old(hs).(state := ReadChannelId)
    {
      Rely(cfg, conn, hs, Ok);
      ghost var settled, k := Settled(cfg, hs), if hs.session then 6 else 11;
      if !cfg.nextProto {
        Skip(conn, settled, k, Client(NextProto));
        hs := hs.(state := ReadChannelId);
        Reach(cfg, conn, hs, Ok, settled, k + 1);
        return Ok;
      }
      var msg := GetMessage(conn);
      if msg.None? {
        NeedsPeer(cfg, conn, hs);
        return ReadMessage;
      }
      if msg.value.kind != NextProto {
        return Error;
      }
      var ok, _ := Ask();
      ok, conn := Take(conn, ok, settled, k);
      if !ok {
        return Error;
      }
      hs := hs.(state := ReadChannelId);
      Reach(cfg, conn, hs, Ok, settled, k + 1);
      return Ok;
    }

    method DoReadChannelId() returns (ret: Wait)
      requires Inv(cfg, conn, hs, Ok) && hs.state == ReadChannelId
      modifies this`hs, this`conn
      ensures Stepped(ret)
      ensures if !old(hs.channelId) then ret == Ok else Needs(old(conn), ChannelId, ret)
      ensures willing && Heads(old(conn), ChannelId) ==> ret == Ok
      ensures ret == Ok ==> hs == old(hs).(state := ReadClientFinished)
    {
      Rely(cfg, conn, hs, Ok);
      ghost var settled, k := Settled(cfg, hs), if hs.session then 7 else 12;
      if !hs.channelId {
        Skip(conn, settled, k, Client(ChannelId));
        hs := hs.(state := ReadClientFinished);
        Reach(cfg, conn, hs, Ok, settled, k + 1);
        return Ok;
      }
      var msg := GetMessage(conn);
      if msg.None? {
        NeedsPeer(cfg, conn, hs);
        return ReadMessage;
      }
      var ok, _ := Ask();
      if msg.value.kind != ChannelId || !ok {
        return Error;
      }
      ok, conn := Take(conn, true, settled, k);
      hs := hs.(state := ReadClientFinished);
      Reach(cfg, conn, hs, Ok, settled, k + 1);
      return Ok;
    }

    method TakeFinished() returns (got: Wait)
      requires Inv(cfg, conn, hs, Ok) && hs.state == ReadClientFinished
      modifies this`conn
      ensures got == FinishedAnswer(old(conn)) && (got == ReadMessage ==> conn == old(conn))
      ensures (got == Ok || Answers(cfg, conn, hs, got)) && (got != ReadMessage || Inv(cfg, conn, hs, ReadMessage))
      ensures got != Ok || Inv(cfg, conn, FinishedNext(hs), Ok)
    {
      Rely(cfg, conn, hs, Ok);
      ghost var k := if hs.session then 8 else 13;
      got, conn := GetFinished(conn, Settled(cfg, hs), k);
      if got == Ok {
        AfterClientFinished(cfg, conn, hs);
      } else if got == ReadMessage {
        NeedsPeer(cfg, conn, hs);
      }
    }

    method DoReadClientFinished() returns (ret: Wait)
      requires Inv(cfg, conn, hs, Ok) && hs.state == ReadClientFinished
      modifies this`hs, this`conn
      ensures Stepped(ret)
      ensures ret == FinishedAnswer(old(conn)) || (ret == Error && !old(hs.session) && old(hs.channelId) && !willing)
      ensures ret == Ok ==> hs == old(hs).(state := if hs.session then FinishServerHandshake else SendServerFinished)
    {
      var got := TakeFinished();
      if got != Ok {
        return got;
      }
      // The handshake's hashes go into the session, for Channel ID in later handshakes.
      var recorded, _ := Ask();
      if !hs.session && hs.channelId && !recorded {
        return Error;
      }
      hs := FinishedNext(hs);
      return Ok;
    }

    method DoSendServerFinished() returns (ret: Wait)
      requires Inv(cfg, conn, hs, Ok) && hs.state == SendServerFinished
      modifies this`hs, this`conn
      ensures Stepped(ret)
      ensures (ret == Flush || ret == Error) && (willing ==> ret == Flush)
      ensures ret == Flush ==>
        hs == old(hs).(state := if hs.session then ReadChangeCipherSpec else FinishServerHandshake)
    {
      Rely(cfg, conn, hs, Ok);
      ghost var settled, k := Settled(cfg, hs), if hs.session then 2 else 14;
      var sent := SendTicket(settled, k);
      if !sent {
        return Error;
      }
      sent := SendCcsAndFinished(settled, k + 1);
      if !sent {
        return Error;
      }
      var next := hs.(state := if hs.session then ReadChangeCipherSpec else FinishServerHandshake);
      AfterServerFinished(cfg, conn, hs, next, k + 3);
      hs := next;
      return Flush;
    }

    method SendTicket(ghost settled: Choices, ghost k: nat) returns (ok: bool)
      requires Along(conn, settled, k, false) && settled == Settled(cfg, hs) && conn.server
      requires k == PlaceOf(settled.resumed, Server(NewSessionTicket))
      modifies this`conn
      ensures (willing ==> ok) && (ok ==> Along(conn, settled, k + 1, false))
      ensures conn.Like(old(conn)) && conn.LiveLike(old(conn)) && conn.past.sessionHash == old(conn.past.sessionHash)
    {
      if hs.ticketExpected {
        var body: bytes, raw: bytes := *, *;
        var encrypted, _ := Ask();
        if !encrypted {
          return false;
        }
        conn := AddMessage(conn, NewSessionTicket, body, raw, settled, k);
      } else {
        Skip(conn, settled, k, Server(NewSessionTicket));
      }
      return true;
    }

    method SendCcsAndFinished(ghost settled: Choices, ghost k: nat) returns (ok: bool)
      requires Along(conn, settled, k, false) && conn.server && conn.hashed.Some?
      requires k == PlaceOf(settled.resumed, ServerCcs)
      modifies this`conn
      ensures (willing ==> ok) && (ok ==> Along(conn, settled, k + 2, false))
      ensures conn.Like(old(conn)) && conn.LiveLike(old(conn)) && conn.past.sessionHash == old(conn.past.sessionHash)
    {
      var framed: bytes := *;
      var changed, _ := Ask();
      conn := ChangeWriteKeys(conn, settled, k);
      if !changed {
        return false;
      }
      conn := SendFinished(conn, framed, settled, k + 1);
      return true;
    }

    method DoFinishServerHandshake() returns (ret: Wait)
      requires Inv(cfg, conn, hs, Ok) && hs.state == FinishServerHandshake
      modifies this`hs
      ensures Stepped(ret)
      ensures ret == Ok && hs == old(hs).(state := Done)
    {
      Rely(cfg, conn, hs, Ok);
      hs := hs.(state := Done);
      Reach(cfg, conn, hs, Ok, old(Settled(cfg, hs)), if hs.session then 9 else 17);
      return Ok;
    }

    /** The machine, from wherever it stands until it is done or has to wait. */
    method Handshake() returns (ret: Wait)
      requires Inv(cfg, conn, hs, Ok)
      modifies this`hs, this`conn
      ensures ret == Error || Inv(cfg, conn, hs, ret)
      ensures ret == Ok ==> hs.state == Done
      ensures willing ==> ret == Ok || Answers(cfg, conn, hs, ret)
    {
      while hs.state != Done
        invariant Inv(cfg, conn, hs, Ok)
        decreases Rank(hs.state, hs.session)
      {
        match hs.state {
          case StartAccept => ret := DoStartAccept();
          case ReadClientHello => ret := DoReadClientHello();
          case SelectCertificate => ret := DoSelectCertificate();
          case SelectParameters => ret := DoSelectParameters();
          case SendServerHello => ret := DoSendServerHello();
          case SendServerCertificate => ret := DoSendServerCertificate();
          case SendServerKeyExchange => ret := DoSendServerKeyExchange();
          case SendServerHelloDone => ret := DoSendServerHelloDone();
          case ReadClientCertificate => ret := DoReadClientCertificate();
          case VerifyClientCertificate => ret := DoVerifyClientCertificate();
          case ReadClientKeyExchange => ret := DoReadClientKeyExchange();
          case ReadClientCertificateVerify => ret := DoReadClientCertificateVerify();
          case ReadChangeCipherSpec => ret := DoReadChangeCipherSpec();
          case ProcessChangeCipherSpec => ret := DoProcessChangeCipherSpec();
          case ReadNextProto => ret := DoReadNextProto();
          case ReadChannelId => ret := DoReadChannelId();
          case ReadClientFinished => ret := DoReadClientFinished();
          case SendServerFinished => ret := DoSendServerFinished();
          case FinishServerHandshake => ret := DoFinishServerHandshake();
        }
        if ret != Ok {
          return;
        }
      }
      return Ok;
    }

    /** Over TLS only what is waited for is taken; over DTLS the rest is kept for later. */
    method Arrive()
      requires wait != Error && Inv(cfg, conn, hs, wait)
      modifies this`conn
      ensures Inv(cfg, conn, hs, wait) && old(conn).inbox <= conn.inbox && (old(conn).ccsArrived ==> conn.ccsArrived)
      ensures conn.inbox != old(conn).inbox ==> cfg.dtls || wait != ReadCcs
      ensures conn.ccsArrived != old(conn).ccsArrived ==> cfg.dtls || wait == ReadCcs
    {
      Rely(cfg, conn, hs, wait);
      var after := Arrives(conn, cfg.dtls || wait != ReadCcs, cfg.dtls || wait == ReadCcs,
                           Settled(cfg, hs), Place(hs.state, hs.session));
      ArrivedKeeps(cfg, conn, hs, wait, after);
      conn := after;
    }

    /**
     One turn of the loop that runs the handshake: whatever the machine waited for is resolved, or
     the call returns and will be made again; then the machine runs on.
     */
    method Run() returns (ret: Wait)
      requires Valid()
      modifies this
      ensures Valid() && ret == wait
      ensures old(wait) == Error ==> wait == Error
      ensures willing && old(wait) != Error && ret == Error ==> OutOfPlace(cfg, conn, hs)
      ensures ret == Ok ==> hs.state == Done
    {
      if wait == Error {
        return Error;
      }
      var ready: bool := *;
      if wait == Flush {
        if !ready {
          return wait;
        }
      } else if wait == ReadMessage || wait == ReadCcs {
        Arrive();
        if (if wait == ReadCcs then !conn.ccsArrived else !ready) {
          return wait;
        }
      }
      Resolved(cfg, conn, hs, wait);
      wait := Handshake();
      return wait;
    }
  }
}
