/**
 The message flow of a TLS 1.2 handshake: RFC 5246, section 7.3, figures 1 and 2, with the messages
 that RFC 5077 (tickets), RFC 6066 (certificate status) and the next-protocol and Channel ID
 extensions add. It is written from outside, so that a client and a server can be held to it alike.
 */
module TlsFlow {
  import opened Bytes

  datatype Kind = HelloVerifyRequest | ClientHello | ServerHello | Certificate | CertificateStatus | ServerKeyExchange
                | CertificateRequest | ServerHelloDone | ClientKeyExchange | CertificateVerify | NextProto
                | ChannelId | NewSessionTicket | Finished

  /** `sealed` says that the message travelled under the keys of this handshake. */
  datatype Msg = Msg(kind: Kind, body: bytes, raw: bytes, sealed: bool)

  datatype Event = Sent(m: Msg) | Received(m: Msg) | SentCcs | ReceivedCcs

  datatype Step = Client(kind: Kind) | Server(kind: Kind) | ClientCcs | ServerCcs

  /** What the parties settled on. */
  datatype Choices = Choices(resumed: bool, certificate: bool, status: bool, keyExchange: bool, certRequest: bool,
                             clientKey: bool, nextProto: bool, channelId: bool, ticket: bool)

  function StepOf(e: Event, server: bool): Step
  {
    match e
    case Sent(m) => if server then Server(m.kind) else Client(m.kind)
    case Received(m) => if server then Client(m.kind) else Server(m.kind)
    case SentCcs => if server then ServerCcs else ClientCcs
    case ReceivedCcs => if server then ClientCcs else ServerCcs
  }

  function Opt(b: bool, s: Step): seq<Step>
  {
    if b then [s] else []
  }

  /** The first two flights of a full handshake. */
  function FirstFlights(c: Choices): seq<Step>
  {
    [Client(ClientHello)] + [Server(ServerHello)]
    + Opt(c.certificate, Server(Certificate)) + Opt(c.status, Server(CertificateStatus))
    + Opt(c.keyExchange, Server(ServerKeyExchange)) + Opt(c.certRequest, Server(CertificateRequest))
    + [Server(ServerHelloDone)]
  }

  /** The client's answer to them. */
  function ClientFlight(c: Choices, first: seq<Step>): seq<Step>
  {
    first + Opt(c.certRequest, Client(Certificate)) + [Client(ClientKeyExchange)]
    + Opt(c.clientKey, Client(CertificateVerify)) + [ClientCcs] + Opt(c.nextProto, Client(NextProto))
    + Opt(c.channelId, Client(ChannelId)) + [Client(Finished)]
  }

  /** The figures. */
  function Flow(c: Choices): seq<Step>
  {
    if c.resumed then
      [Client(ClientHello)] + [Server(ServerHello)]
      + Opt(c.ticket, Server(NewSessionTicket)) + [ServerCcs] + [Server(Finished)]
      + [ClientCcs] + Opt(c.nextProto, Client(NextProto)) + Opt(c.channelId, Client(ChannelId)) + [Client(Finished)]
    else
      ClientFlight(c, FirstFlights(c))
      + Opt(c.ticket, Server(NewSessionTicket)) + [ServerCcs] + [Server(Finished)]
  }

  /** What the standards ask of the choices. */
  predicate Coherent(c: Choices)
  {
    && (c.status ==> c.certificate)
    && (c.certRequest ==> c.certificate)
    && (c.clientKey ==> c.certRequest)
    && (c.resumed ==> !c.certRequest)
  }

  /** Place `k` of the figures: who speaks there, and whether the choices have it spoken. */
  function StepAt(resumed: bool, k: nat): Step
  {
    if resumed then
      if k == 0 then Client(ClientHello) else if k == 1 then Server(ServerHello)
      else if k == 2 then Server(NewSessionTicket) else if k == 3 then ServerCcs else if k == 4 then Server(Finished)
      else if k == 5 then ClientCcs else if k == 6 then Client(NextProto) else if k == 7 then Client(ChannelId)
      else Client(Finished)
    else
      if k == 0 then Client(ClientHello) else if k == 1 then Server(ServerHello)
      else if k == 2 then Server(Certificate) else if k == 3 then Server(CertificateStatus)
      else if k == 4 then Server(ServerKeyExchange) else if k == 5 then Server(CertificateRequest)
      else if k == 6 then Server(ServerHelloDone)
      else if k == 7 then Client(Certificate) else if k == 8 then Client(ClientKeyExchange)
      else if k == 9 then Client(CertificateVerify) else if k == 10 then ClientCcs
      else if k == 11 then Client(NextProto) else if k == 12 then Client(ChannelId)
      else if k == 13 then Client(Finished)
      else if k == 14 then Server(NewSessionTicket) else if k == 15 then ServerCcs
      else Server(Finished)
  }

  function End(resumed: bool): nat
  {
    if resumed then 9 else 17
  }

  const NOWHERE := 99

  /** The place where a step stands, if it has one. */
  function PlaceOf(resumed: bool, s: Step): nat
  {
    match s
    case Client(ClientHello) => 0
    case Server(ServerHello) => 1
    case Server(Certificate) => if resumed then NOWHERE else 2
    case Server(CertificateStatus) => if resumed then NOWHERE else 3
    case Server(ServerKeyExchange) => if resumed then NOWHERE else 4
    case Server(CertificateRequest) => if resumed then NOWHERE else 5
    case Server(ServerHelloDone) => if resumed then NOWHERE else 6
    case Client(Certificate) => if resumed then NOWHERE else 7
    case Client(ClientKeyExchange) => if resumed then NOWHERE else 8
    case Client(CertificateVerify) => if resumed then NOWHERE else 9
    case ClientCcs => if resumed then 5 else 10
    case Client(NextProto) => if resumed then 6 else 11
    case Client(ChannelId) => if resumed then 7 else 12
    case Client(Finished) => if resumed then 8 else 13
    case Server(NewSessionTicket) => if resumed then 2 else 14
    case ServerCcs => if resumed then 3 else 15
    case Server(Finished) => if resumed then 4 else 16
    case _ => NOWHERE
  }

  /** The table and its inverse. */
  lemma StepAtPlace(resumed: bool, s: Step)
    requires PlaceOf(resumed, s) != NOWHERE
    ensures PlaceOf(resumed, s) < End(resumed) && StepAt(resumed, PlaceOf(resumed, s)) == s
  {
  }

  predicate Spoken(c: Choices, s: Step)
  {
    match s
    case Server(Certificate) => c.certificate
    case Server(CertificateStatus) => c.status
    case Server(ServerKeyExchange) => c.keyExchange
    case Server(CertificateRequest) => c.certRequest
    case Client(Certificate) => c.certRequest
    case Client(CertificateVerify) => c.clientKey
    case Client(NextProto) => c.nextProto
    case Client(ChannelId) => c.channelId
    case Server(NewSessionTicket) => c.ticket
    case _ => true
  }

  /** The flow before place `k`. */
  function Upto(c: Choices, k: nat): seq<Step>
  {
    if k == 0 then [] else
    var s := StepAt(c.resumed, k - 1);
    if Spoken(c, s) then Upto(c, k - 1) + [s] else Upto(c, k - 1)
  }

  lemma UptoNext(c: Choices, k: nat, b: bool, s: Step)
    requires s == StepAt(c.resumed, k) && b == Spoken(c, s)
    ensures Upto(c, k + 1) == Upto(c, k) + Opt(b, s)
  {
  }

  lemma HellosFirst(c: Choices)
    ensures Upto(c, 2) == [Client(ClientHello)] + [Server(ServerHello)]
  {
    assert Upto(c, 1) == [Client(ClientHello)];
  }

  lemma ResumedIsFlow(c: Choices)
    requires c.resumed
    ensures Upto(c, 9) == Flow(c)
  {
    HellosFirst(c);
    UptoNext(c, 2, c.ticket, Server(NewSessionTicket));
    UptoNext(c, 3, true, ServerCcs);
    UptoNext(c, 4, true, Server(Finished));
    UptoNext(c, 5, true, ClientCcs);
    UptoNext(c, 6, c.nextProto, Client(NextProto));
    UptoNext(c, 7, c.channelId, Client(ChannelId));
    UptoNext(c, 8, true, Client(Finished));
  }

  lemma FirstFlightsAreFlow(c: Choices)
    requires !c.resumed
    ensures Upto(c, 7) == FirstFlights(c)
  {
    HellosFirst(c);
    UptoNext(c, 2, c.certificate, Server(Certificate));
    UptoNext(c, 3, c.status, Server(CertificateStatus));
    UptoNext(c, 4, c.keyExchange, Server(ServerKeyExchange));
    UptoNext(c, 5, c.certRequest, Server(CertificateRequest));
    UptoNext(c, 6, true, Server(ServerHelloDone));
  }

  lemma ClientFlightIsFlow(c: Choices, first: seq<Step>)
    requires !c.resumed && Upto(c, 7) == first
    ensures Upto(c, 14) == ClientFlight(c, first)
  {
    UptoNext(c, 7, c.certRequest, Client(Certificate));
    UptoNext(c, 8, true, Client(ClientKeyExchange));
    UptoNext(c, 9, c.clientKey, Client(CertificateVerify));
    UptoNext(c, 10, true, ClientCcs);
    UptoNext(c, 11, c.nextProto, Client(NextProto));
    UptoNext(c, 12, c.channelId, Client(ChannelId));
    UptoNext(c, 13, true, Client(Finished));
  }

  lemma FullIsFlow(c: Choices)
    requires !c.resumed
    ensures Upto(c, 17) == Flow(c)
  {
    FirstFlightsAreFlow(c);
    ClientFlightIsFlow(c, FirstFlights(c));
    UptoNext(c, 14, c.ticket, Server(NewSessionTicket));
    UptoNext(c, 15, true, ServerCcs);
    UptoNext(c, 16, true, Server(Finished));
  }

  /** Walking through the places gives the figures. */
  lemma UptoIsFlow(c: Choices)
    ensures Upto(c, End(c.resumed)) == Flow(c)
  {
    if c.resumed { ResumedIsFlow(c); } else { FullIsFlow(c); }
  }

  /** Choices that agree on what is spoken so far give the same flow so far. */
  lemma {:induction false} UptoAgrees(c: Choices, d: Choices, k: nat)
    requires c.resumed == d.resumed
    requires forall i: nat :: i < k ==> Spoken(c, StepAt(c.resumed, i)) == Spoken(d, StepAt(d.resumed, i))
    ensures Upto(c, k) == Upto(d, k)
  {
    if k > 0 {
      UptoAgrees(c, d, k - 1);
    }
  }

  /** Every step stands in its place, hence occurs at most once, and in the order of the figures. */
  lemma {:induction false} InOrder(c: Choices, k: nat, i: nat)
    requires k <= End(c.resumed) && i < |Upto(c, k)|
    ensures PlaceOf(c.resumed, Upto(c, k)[i]) < k
    ensures forall j :: i < j < |Upto(c, k)| ==>
              PlaceOf(c.resumed, Upto(c, k)[i]) < PlaceOf(c.resumed, Upto(c, k)[j])
  {
    PlaceOfStep(c.resumed, k - 1);
    if i < |Upto(c, k - 1)| {
      InOrder(c, k - 1, i);
      if Upto(c, k) != Upto(c, k - 1) {
        assert Upto(c, k)[|Upto(c, k - 1)|] == StepAt(c.resumed, k - 1);
      }
    }
  }

  lemma PlaceOfStep(resumed: bool, k: nat)
    requires k < End(resumed)
    ensures PlaceOf(resumed, StepAt(resumed, k)) == k
  {
  }
}
