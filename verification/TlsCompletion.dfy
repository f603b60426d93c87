/**
 What a finished TLS handshake guarantees, read off from what either machine keeps: the flow is one
 of the figures of RFC 5246, the transcript is every message once, and each Finished and each
 CertificateVerify covered exactly the messages before it.
 */
module TlsCompletion {
  import opened Wrappers
  import opened Bytes
  import opened TlsFlow
  import opened TlsConnection
  import S = TlsServer
  import C = TlsClient

  /** The message bytes of a log, end to end. */
  function Whole(log: seq<Event>): bytes
  {
    Flatten(Raws(log))
  }

  ghost predicate IsStep(c: Connection, i: int, s: Step)
  {
    0 <= i < |c.past.log| && StepOf(c.past.log[i], c.server) == s
  }

  lemma {:induction false} UptoHas(choices: Choices, k: nat, s: Step)
    requires k <= End(choices.resumed) && PlaceOf(choices.resumed, s) < k && Spoken(choices, s)
    ensures exists i :: 0 <= i < |Upto(choices, k)| && Upto(choices, k)[i] == s
  {
    StepAtPlace(choices.resumed, s);
    if PlaceOf(choices.resumed, s) == k - 1 {
      assert Upto(choices, k)[|Upto(choices, k)| - 1] == s;
    } else {
      UptoHas(choices, k - 1, s);
      var i: nat :| i < |Upto(choices, k - 1)| && Upto(choices, k - 1)[i] == s;
      assert Upto(choices, k)[i] == s;
    }
  }

  /** The steps of the history are those of its log. */
  lemma StepsOfLog(c: Connection, choices: Choices, k: nat)
    requires Along(c, choices, k, false)
    ensures |c.past.log| == |Upto(choices, k)|
    ensures forall i :: 0 <= i < |c.past.log| ==> Upto(choices, k)[i] == StepOf(c.past.log[i], c.server)
  {
    assert Keeps(c, choices, k, false, HistoryIsReplayed) && Keeps(c, choices, k, false, FlowFollowed);
    ReplaySteps(c.crypto, c.server, c.past.log);
  }

  lemma {:induction false} UptoOnly(choices: Choices, k: nat, s: Step)
    requires k <= End(choices.resumed) && s in Upto(choices, k)
    ensures PlaceOf(choices.resumed, s) < k && Spoken(choices, s)
  {
    PlaceOfStep(choices.resumed, k - 1);
    if s in Upto(choices, k - 1) {
      UptoOnly(choices, k - 1, s);
    }
  }

  /** A step has been spoken exactly if its place has been passed and the choices have it spoken. */
  lemma Spoke(c: Connection, choices: Choices, k: nat, s: Step)
    requires Along(c, choices, k, false) && k <= End(choices.resumed)
    ensures s in c.past.steps <==> PlaceOf(choices.resumed, s) < k && Spoken(choices, s)
  {
    assert Keeps(c, choices, k, false, FlowFollowed);
    if s in c.past.steps {
      UptoOnly(choices, k, s);
    } else if PlaceOf(choices.resumed, s) < k && Spoken(choices, s) {
      UptoHas(choices, k, s);
    }
  }

  lemma SpokeAtEnd(c: Connection, choices: Choices, s: Step)
    requires Along(c, choices, End(choices.resumed), false)
    requires PlaceOf(choices.resumed, s) != NOWHERE
    ensures s in c.past.steps <==> Spoken(choices, s)
  {
    StepAtPlace(choices.resumed, s);
    Spoke(c, choices, End(choices.resumed), s);
  }

  /** Which of the server's messages a full handshake had ... */
  lemma SpokenByServer(c: Connection, choices: Choices)
    requires Along(c, choices, 17, false) && !choices.resumed
    ensures Server(Certificate) in c.past.steps <==> choices.certificate
    ensures Server(CertificateStatus) in c.past.steps <==> choices.status
    ensures Server(ServerKeyExchange) in c.past.steps <==> choices.keyExchange
    ensures Server(CertificateRequest) in c.past.steps <==> choices.certRequest
    ensures Server(NewSessionTicket) in c.past.steps <==> choices.ticket
  {
    var kinds := [Certificate, CertificateStatus, ServerKeyExchange, CertificateRequest, NewSessionTicket];
    forall k | k in kinds ensures Server(k) in c.past.steps <==> Spoken(choices, Server(k)) {
      SpokeAtEnd(c, choices, Server(k));
    }
  }

  /** ... and which of the client's. */
  lemma SpokenByClient(c: Connection, choices: Choices)
    requires Along(c, choices, 17, false) && !choices.resumed
    ensures Client(Certificate) in c.past.steps <==> choices.certRequest
    ensures Client(CertificateVerify) in c.past.steps <==> choices.clientKey
    ensures Client(NextProto) in c.past.steps <==> choices.nextProto
    ensures Client(ChannelId) in c.past.steps <==> choices.channelId
  {
    var kinds := [Certificate, CertificateVerify, NextProto, ChannelId];
    forall k | k in kinds ensures Client(k) in c.past.steps <==> Spoken(choices, Client(k)) {
      SpokeAtEnd(c, choices, Client(k));
    }
  }

  /** Every step that the choices have spoken before place `k` has been spoken. */
  lemma HasStep(c: Connection, choices: Choices, k: nat, s: Step) returns (i: nat)
    requires Along(c, choices, k, false) && k <= End(choices.resumed)
    requires PlaceOf(choices.resumed, s) < k && Spoken(choices, s)
    ensures IsStep(c, i, s)
  {
    StepsOfLog(c, choices, k);
    UptoHas(choices, k, s);
    i :| 0 <= i < |Upto(choices, k)| && Upto(choices, k)[i] == s;
  }

  /** Steps come in the order of their places, so that none comes twice. */
  lemma StepsInOrder(c: Connection, choices: Choices, k: nat, i: nat, s: Step, j: nat, t: Step)
    requires Along(c, choices, k, false) && k <= End(choices.resumed) && IsStep(c, i, s) && IsStep(c, j, t)
    ensures i < j <==> PlaceOf(choices.resumed, s) < PlaceOf(choices.resumed, t)
  {
    StepsOfLog(c, choices, k);
    InOrder(choices, k, i);
    InOrder(choices, k, j);
  }

  /** What came before event `i`, as the history of it. */
  lemma RightEvent(c: Connection, choices: Choices, k: nat, i: nat)
    requires Along(c, choices, k, false) && i < |c.past.log|
    ensures var before := Replay(c.crypto, c.server, c.past.log[..i]);
      && Right(c.crypto, c.server, before, c.past.log[i]) && before.messages == Whole(c.past.log[..i])
      && (before.readCcs <==> ReceivedCcs in c.past.log[..i])
      && (before.wroteCcs <==> SentCcs in c.past.log[..i])
  {
    assert Keeps(c, choices, k, false, HistoryIsReplayed);
    RightAt(c.crypto, c.server, c.past.log, i);
    ReplayMessages(c.crypto, c.server, c.past.log[..i]);
    SawCcs(c.crypto, c.server, c.past.log[..i]);
  }

  // ---------------------------------------------------------------------------------------

  function PeerFinished(server: bool): Step
  {
    if server then Client(Finished) else Server(Finished)
  }

  function PeerCcs(server: bool): Step
  {
    if server then ClientCcs else ServerCcs
  }

  /** The peer's Finished at `i`, protected by the new keys, over exactly the messages before it. */
  ghost predicate VerifiedFinished(c: Connection, i: nat)
  {
    && i < |c.past.log| && c.past.log[i].Received? && c.past.log[i].m.kind == Finished && c.past.log[i].m.sealed
    && c.past.log[i].m.body == c.crypto.verifyData(!c.server, Whole(c.past.log[..i]))
  }

  lemma FinishedAt(c: Connection, choices: Choices, i: nat, ccs: nat)
    requires Along(c, choices, End(choices.resumed), false)
    requires IsStep(c, i, PeerFinished(c.server)) && IsStep(c, ccs, PeerCcs(c.server)) && ccs < i
    ensures VerifiedFinished(c, i)
  {
    RightEvent(c, choices, End(choices.resumed), i);
    assert c.past.log[..i][ccs] == ReceivedCcs;
  }

  /** Whoever completes the flow has verified the peer's Finished, once, after the keys for reading changed. */
  lemma FinishedVerifiedOnce(c: Connection, choices: Choices) returns (i: nat)
    requires Along(c, choices, End(choices.resumed), false)
    ensures VerifiedFinished(c, i)
    ensures forall j: nat :: IsStep(c, j, PeerFinished(c.server)) ==> j == i
  {
    var k := End(choices.resumed);
    i := HasStep(c, choices, k, PeerFinished(c.server));
    var ccs := HasStep(c, choices, k, PeerCcs(c.server));
    StepsInOrder(c, choices, k, ccs, PeerCcs(c.server), i, PeerFinished(c.server));
    FinishedAt(c, choices, i, ccs);
    forall j: nat | IsStep(c, j, PeerFinished(c.server)) ensures j == i {
      StepsInOrder(c, choices, k, i, PeerFinished(c.server), j, PeerFinished(c.server));
      StepsInOrder(c, choices, k, j, PeerFinished(c.server), i, PeerFinished(c.server));
    }
  }

  /** The transcript is every message of the flow, each once and in order; so is what was received. */
  lemma TranscriptIsWhole(c: Connection, choices: Choices)
    requires Along(c, choices, End(choices.resumed), false)
    ensures c.hashed.Some? ==> c.hashed.value == Whole(c.past.log)
    ensures c.buffer.Some? ==> c.buffer.value == Whole(c.past.log)
    ensures c.past.steps == Flow(choices)
    ensures c.arrived == c.dropped.received + c.past.received + c.inbox
  {
    var k := End(choices.resumed);
    Digested(c, choices, k, false);
    assert Keeps(c, choices, k, false, HistoryIsReplayed) && Keeps(c, choices, k, false, FlowFollowed);
    assert Keeps(c, choices, k, false, MessagesAccounted);
    ReplayMessages(c.crypto, c.server, c.past.log);
    UptoIsFlow(choices);
  }

  // ---------------------------------------------------------------------------------------
  // The machines.

  /** The server at its end: one verified Finished, and nothing but a whole, coherent flow in the transcript. */
  lemma ServerCompletes(cfg: S.Config, conn: Connection, hs: S.Hs) returns (i: nat)
    requires S.Inv(cfg, conn, hs, Ok) && hs.state == S.Done
    ensures VerifiedFinished(conn, i)
    ensures conn.past.steps == Flow(S.Settled(cfg, hs)) && Coherent(S.Settled(cfg, hs))
    ensures conn.hashed == Some(Whole(conn.past.log)) && conn.arrived == conn.past.received + conn.inbox
  {
    S.Rely(cfg, conn, hs, Ok);
    i := FinishedVerifiedOnce(conn, S.Settled(cfg, hs));
    TranscriptIsWhole(conn, S.Settled(cfg, hs));
    assert EMPTY.received + conn.past.received == conn.past.received;
  }

  /** What a full handshake with the server consists of follows from its configuration. */
  lemma ServerFlow(cfg: S.Config, conn: Connection, hs: S.Hs)
    requires S.Inv(cfg, conn, hs, Ok) && hs.state == S.Done && !hs.session
    ensures Server(Certificate) in conn.past.steps <==> cfg.certificateAuth
    ensures Server(CertificateStatus) in conn.past.steps <==> cfg.certificateAuth && cfg.staple
    ensures Server(ServerKeyExchange) in conn.past.steps <==> cfg.keyExchange
    ensures Server(CertificateRequest) in conn.past.steps <==>
      cfg.certificateAuth && cfg.verifyPeer && !(cfg.verifyPeerIfNoObc && cfg.channelIdOffered)
    ensures Client(Certificate) in conn.past.steps <==> Server(CertificateRequest) in conn.past.steps
    ensures Client(CertificateVerify) in conn.past.steps <==> hs.peerKey
    ensures Client(NextProto) in conn.past.steps <==> cfg.nextProto
    ensures Client(ChannelId) in conn.past.steps <==> cfg.channelIdOffered && cfg.ecdhe
    ensures Server(NewSessionTicket) in conn.past.steps <==> hs.ticketExpected
  {
    S.Rely(cfg, conn, hs, Ok);
    SpokenByServer(conn, S.Settled(cfg, hs));
    SpokenByClient(conn, S.Settled(cfg, hs));
  }

  /** A resumed one: no certificate of either side, and no keys exchanged. */
  lemma ServerResumed(cfg: S.Config, conn: Connection, hs: S.Hs)
    requires S.Inv(cfg, conn, hs, Ok) && hs.state == S.Done && hs.session
    ensures Server(Certificate) !in conn.past.steps && Server(CertificateRequest) !in conn.past.steps
    ensures Client(Certificate) !in conn.past.steps && Client(ClientKeyExchange) !in conn.past.steps
    ensures Client(NextProto) in conn.past.steps <==> cfg.nextProto
    ensures Client(ChannelId) in conn.past.steps ==> cfg.channelIdOffered && cfg.ecdhe
    ensures Server(NewSessionTicket) in conn.past.steps <==> hs.ticketExpected
  {
    S.Rely(cfg, conn, hs, Ok);
    var settled := S.Settled(cfg, hs);
    Spoke(conn, settled, 9, Server(Certificate));
    Spoke(conn, settled, 9, Server(CertificateRequest));
    Spoke(conn, settled, 9, Client(Certificate));
    Spoke(conn, settled, 9, Client(ClientKeyExchange));
    SpokeAtEnd(conn, settled, Client(NextProto));
    SpokeAtEnd(conn, settled, Client(ChannelId));
    SpokeAtEnd(conn, settled, Server(NewSessionTicket));
  }

  /** At no time has a certificate been asked for but by a server that verifies its peers. */
  lemma ServerNeverAsks(cfg: S.Config, conn: Connection, hs: S.Hs, w: Wait)
    requires S.Inv(cfg, conn, hs, w) && w != Error
    requires !cfg.verifyPeer || (cfg.verifyPeerIfNoObc && cfg.channelIdOffered)
    ensures Server(CertificateRequest) !in conn.past.steps && Client(Certificate) !in conn.past.steps
  {
    S.Rely(cfg, conn, hs, w);
    Spoke(conn, S.Settled(cfg, hs), S.Place(hs.state, hs.session), Server(CertificateRequest));
    Spoke(conn, S.Settled(cfg, hs), S.Place(hs.state, hs.session), Client(Certificate));
  }

  /**
   A server that does not do without the client's certificate, unless a Channel ID excuses the client, has
   checked a CertificateVerify in every full handshake it completes.
   */
  lemma ServerRequiredClient(cfg: S.Config, conn: Connection, hs: S.Hs) returns (v: nat, i: nat)
    requires S.Inv(cfg, conn, hs, Ok) && hs.state == S.Done && !hs.session
    requires cfg.verifyPeer && cfg.failIfNoPeerCert && cfg.certificateAuth
    requires !(cfg.verifyPeerIfNoObc && cfg.channelIdOffered)
    ensures hs.peerKey && hs.chainAccepted && v < i && VerifiedFinished(conn, i)
    ensures conn.past.log[v].Received? && conn.past.log[v].m.kind == CertificateVerify
    ensures conn.crypto.signatureOk(conn.past.log[v].m.body, Whole(conn.past.log[..v]))
  {
    S.Rely(cfg, conn, hs, Ok);
    v, i := ServerVerifiedClient(cfg, conn, hs);
  }

  /** That excuse is exact: with one, no such server has a client's key when it is done. */
  lemma ClientKeyUnlessExcused(cfg: S.Config, conn: Connection, hs: S.Hs)
    requires S.Inv(cfg, conn, hs, Ok) && hs.state == S.Done && !hs.session
    requires cfg.verifyPeer && cfg.failIfNoPeerCert && cfg.certificateAuth
    ensures hs.peerKey <==> !(cfg.verifyPeerIfNoObc && cfg.channelIdOffered)
  {
    S.Rely(cfg, conn, hs, Ok);
  }

  /** A server that took a client's certificate accepted its chain and checked a CertificateVerify before Finished. */
  lemma ServerVerifiedClient(cfg: S.Config, conn: Connection, hs: S.Hs) returns (v: nat, i: nat)
    requires S.Inv(cfg, conn, hs, Ok) && hs.state == S.Done && hs.peerKey
    ensures hs.chainAccepted && v < i && VerifiedFinished(conn, i)
    ensures conn.past.log[v].Received? && conn.past.log[v].m.kind == CertificateVerify
    ensures conn.crypto.signatureOk(conn.past.log[v].m.body, Whole(conn.past.log[..v]))
  {
    S.Rely(cfg, conn, hs, Ok);
    var settled := S.Settled(cfg, hs);
    var k := End(settled.resumed);
    i := FinishedVerifiedOnce(conn, settled);
    v := HasStep(conn, settled, k, Client(CertificateVerify));
    StepsInOrder(conn, settled, k, v, Client(CertificateVerify), i, Client(Finished));
    RightEvent(conn, settled, k, v);
  }

  /** The same end for the client, whose DTLS handshake may have dropped its first exchange and no more. */
  lemma ClientCompletes(cfg: C.Config, conn: Connection, hs: C.Hs) returns (i: nat)
    requires C.Inv(cfg, conn, hs, Ok) && hs.state == C.Done
    ensures VerifiedFinished(conn, i)
    ensures conn.past.steps == Flow(C.Settled(cfg, hs))
    ensures conn.hashed == Some(Whole(conn.past.log)) && C.DroppedRight(conn.dropped)
    ensures conn.arrived == conn.dropped.received + conn.past.received + conn.inbox
    ensures Coherent(C.Settled(cfg, hs)) && (!hs.session ==> C.Authentic(cfg, hs))
  {
    C.Rely(cfg, conn, hs, Ok);
    i := FinishedVerifiedOnce(conn, C.Settled(cfg, hs));
    TranscriptIsWhole(conn, C.Settled(cfg, hs));
  }

  /** What a full handshake with the client consists of: what its configuration asks for and the server chose. */
  lemma ClientFlow(cfg: C.Config, conn: Connection, hs: C.Hs)
    requires C.Inv(cfg, conn, hs, Ok) && hs.state == C.Done && !hs.session
    ensures Server(Certificate) in conn.past.steps <==> cfg.certificateAuth
    ensures Server(CertificateStatus) in conn.past.steps ==> cfg.certificateAuth && cfg.statusExpected
    ensures cfg.requiresKeyExchange ==> Server(ServerKeyExchange) in conn.past.steps
    ensures cfg.certificateAuth ==> hs.chainAccepted
    ensures cfg.certificateAuth && Server(ServerKeyExchange) in conn.past.steps ==> hs.paramsSigned
    ensures Server(CertificateRequest) in conn.past.steps ==> cfg.certificateAuth
    ensures Client(Certificate) in conn.past.steps <==> Server(CertificateRequest) in conn.past.steps
    ensures Client(CertificateVerify) in conn.past.steps <==> hs.clientKey
    ensures Client(NextProto) in conn.past.steps <==> cfg.nextProto
    ensures Client(ChannelId) in conn.past.steps <==> cfg.channelId
    ensures Server(NewSessionTicket) in conn.past.steps <==> cfg.ticketExpected
  {
    C.Rely(cfg, conn, hs, Ok);
    SpokenByServer(conn, C.Settled(cfg, hs));
    SpokenByClient(conn, C.Settled(cfg, hs));
  }

  /** The session hash of RFC 7627 is the messages through ClientKeyExchange, on either side. */
  lemma {:induction false} SessionHashIsPrefix(crypto: Crypto, server: bool, log: seq<Event>, i: nat)
    requires i < |log| && (log[i].Sent? || log[i].Received?) && log[i].m.kind == ClientKeyExchange
    requires forall j :: i < j < |log| && (log[j].Sent? || log[j].Received?) ==> log[j].m.kind != ClientKeyExchange
    ensures Replay(crypto, server, log).sessionHash == Whole(log[..i + 1])
  {
    var front := log[..|log| - 1];
    ReplayMessages(crypto, server, log);
    if i < |log| - 1 {
      SessionHashIsPrefix(crypto, server, front, i);
      assert front[..i + 1] == log[..i + 1];
    } else {
      assert log[..i + 1] == log;
    }
  }

  // ---------------------------------------------------------------------------------------
  // Both sides.

  /** The contents of a Finished tell transcripts apart. */
  ghost predicate Binding(crypto: Crypto)
  {
    forall fromServer: bool, a: bytes, b: bytes ::
      crypto.verifyData(fromServer, a) == crypto.verifyData(fromServer, b) ==> a == b
  }

  /**
   If the Finished that one side accepted is the one that the other sent, then up to it both sides
   have the same transcript.
   */
  lemma TranscriptsAgree(a: Connection, ca: Choices, b: Connection, cb: Choices) returns (i: nat, j: nat)
    requires Along(a, ca, End(ca.resumed), false) && Along(b, cb, End(cb.resumed), false)
    requires a.server != b.server && a.crypto == b.crypto && Binding(a.crypto)
    requires forall i: nat, j: nat :: VerifiedFinished(a, i) && IsStep(b, j, PeerFinished(a.server)) ==>
               a.past.log[i].m.body == b.past.log[j].m.body
    ensures VerifiedFinished(a, i) && IsStep(b, j, PeerFinished(a.server))
    ensures Whole(a.past.log[..i]) == Whole(b.past.log[..j])
  {
    i := FinishedVerifiedOnce(a, ca);
    j := HasStep(b, cb, End(cb.resumed), PeerFinished(a.server));
    RightEvent(b, cb, End(cb.resumed), j);
  }
}
