/**
 What a handshake sees of its connection: the messages that have come and not been consumed, the
 handshake transcript, and the keys of either direction; with a history of what has passed.
 */
module TlsConnection {
  import opened Wrappers
  import opened Bytes
  import opened TlsFlow

  datatype Wait = Ok | Error | Flush | ReadMessage | ReadServerHello | ReadCcs | EarlyReturn
                | Handoff | CertificateSelectionPending | X509Lookup | ChannelIdLookup | PrivateKeyOperation
                | PendingSession | PendingTicket | CertificateVerifyPending

  /**
   The cryptography, as functions: the contents of either side's Finished and of a CertificateVerify
   over the messages before it, and the check of a CertificateVerify.
   */
  datatype Crypto = Crypto(verifyData: (bool, bytes) -> bytes, sign: bytes -> bytes,
    signatureOk: (bytes, bytes) -> bool)

  // ---------------------------------------------------------------------------------------
  // History.

  /**
   A log of events and what it amounts to: its steps, its messages end to end, those received,
   whether either ChangeCipherSpec has passed, whether all was as it should be, and the messages
   through ClientKeyExchange, which are the session hash of RFC 7627.
   */
  datatype History = History(log: seq<Event>, steps: seq<Step>, messages: bytes, received: seq<Msg>,
                             readCcs: bool, wroteCcs: bool, right: bool, sessionHash: bytes)

  const EMPTY := History([], [], [], [], false, false, true, [])

  /** A Finished or CertificateVerify covers exactly the messages before it; sealing starts at ChangeCipherSpec. */
  predicate Right(crypto: Crypto, server: bool, before: History, e: Event)
  {
    match e
    case Received(m) =>
      && m.sealed == before.readCcs
      && (m.kind == Finished ==> m.body == crypto.verifyData(!server, before.messages))
      && (m.kind == CertificateVerify ==> crypto.signatureOk(m.body, before.messages))
    case Sent(m) =>
      && m.sealed == before.wroteCcs
      && (m.kind == Finished ==> m.body == crypto.verifyData(server, before.messages))
      && (m.kind == CertificateVerify ==> m.body == crypto.sign(before.messages))
    case _ => true
  }

  function RawOf(e: Event): bytes
  {
    if e.Sent? || e.Received? then e.m.raw else []
  }

  function Note(crypto: Crypto, server: bool, h: History, e: Event): History
  {
    var messages := h.messages + RawOf(e);
    History(h.log + [e], h.steps + [StepOf(e, server)], messages,
            if e.Received? then h.received + [e.m] else h.received,
            h.readCcs || e == ReceivedCcs, h.wroteCcs || e == SentCcs,
            h.right && Right(crypto, server, h, e),
            if (e.Sent? || e.Received?) && e.m.kind == ClientKeyExchange then messages else h.sessionHash)
  }

  function Replay(crypto: Crypto, server: bool, log: seq<Event>): History
  {
    if log == [] then EMPTY else Note(crypto, server, Replay(crypto, server, log[..|log| - 1]), log[|log| - 1])
  }

  lemma ReplayNext(crypto: Crypto, server: bool, log: seq<Event>, e: Event)
    ensures Replay(crypto, server, log + [e]) == Note(crypto, server, Replay(crypto, server, log), e)
  {
    assert (log + [e])[..|log|] == log;
  }

  /** The bytes of a log's messages, each once and in order; ChangeCipherSpec is none. */
  function Raws(log: seq<Event>): (r: seq<bytes>)
    ensures |r| == |log|
  {
    seq(|log|, i requires 0 <= i < |log| => RawOf(log[i]))
  }

  lemma RawsAppend(log: seq<Event>, e: Event)
    ensures Raws(log + [e]) == Raws(log) + [RawOf(e)]
  {
  }

  /** A replayed history has the messages of its log, end to end. */
  lemma {:induction false} ReplayMessages(crypto: Crypto, server: bool, log: seq<Event>)
    ensures Replay(crypto, server, log).messages == Flatten(Raws(log))
  {
    if log != [] {
      var front, last := log[..|log| - 1], log[|log| - 1];
      ReplayMessages(crypto, server, front);
      assert log == front + [last];
      RawsAppend(front, last);
      FlattenAppend(Raws(front), [RawOf(last)]);
      assert [RawOf(last)][1..] == [];
    }
  }

  /** And its steps. */
  lemma {:induction false} ReplaySteps(crypto: Crypto, server: bool, log: seq<Event>)
    ensures |Replay(crypto, server, log).steps| == |log|
    ensures forall i :: 0 <= i < |log| ==> Replay(crypto, server, log).steps[i] == StepOf(log[i], server)
  {
    if log != [] {
      ReplaySteps(crypto, server, log[..|log| - 1]);
    }
  }

  /** In a history that is right, every event was right over what came before it. */
  lemma {:induction false} RightAt(crypto: Crypto, server: bool, log: seq<Event>, i: nat)
    requires Replay(crypto, server, log).right && i < |log|
    ensures Right(crypto, server, Replay(crypto, server, log[..i]), log[i])
  {
    var front := log[..|log| - 1];
    if i < |log| - 1 {
      RightAt(crypto, server, front, i);
      assert front[..i] == log[..i];
    }
  }

  /** ChangeCipherSpec has been read exactly if the log has it. */
  lemma {:induction false} SawCcs(crypto: Crypto, server: bool, log: seq<Event>)
    ensures Replay(crypto, server, log).readCcs <==> ReceivedCcs in log
    ensures Replay(crypto, server, log).wroteCcs <==> SentCcs in log
  {
    if log != [] {
      SawCcs(crypto, server, log[..|log| - 1]);
      assert log == log[..|log| - 1] + [log[|log| - 1]];
    }
  }

  // ---------------------------------------------------------------------------------------

  predicate AllSealed(ms: seq<Msg>, sealed: bool)
  {
    ms == [] || (ms[0].sealed == sealed && AllSealed(ms[1..], sealed))
  }

  lemma {:induction false} AllSealedAppend(a: seq<Msg>, b: seq<Msg>, sealed: bool)
    requires AllSealed(a, sealed) && AllSealed(b, sealed)
    ensures AllSealed(a + b, sealed)
  {
    if a == [] {
      assert a + b == b;
    } else {
      assert (a + b)[1..] == a[1..] + b;
      AllSealedAppend(a[1..], b, sealed);
    }
  }

  /**
   `past` is the history since the transcript was last started, `dropped` what passed before that,
   `arrived` every message that ever came, `ccsArrived` whether the peer's ChangeCipherSpec has, and
   `leftover` whether part of a message has, or of a ChangeCipherSpec nobody waits for.
   */
  datatype Connection = Connection(server: bool, crypto: Crypto, inbox: seq<Msg>, buffer: Option<bytes>,
                                   hashed: Option<bytes>, readSealed: bool, writeSealed: bool,
                                   past: History, dropped: History, arrived: seq<Msg>, ccsArrived: bool, leftover: bool)
  {
    /** The buffer and the hash, whichever are live, stand for `t`. */
    predicate Digests(t: bytes)
    {
      && (buffer.Some? || hashed.Some?)
      && (buffer.Some? ==> buffer.value == t)
      && (hashed.Some? ==> hashed.value == t)
    }

    function Noting(e: Event): History
    {
      Note(crypto, server, past, e)
    }

    /** Bytes go into the transcript, into the buffer and the hash, whichever are live. */
    function Update(raw: bytes): Connection
    {
      this.(buffer := if buffer.Some? then Some(buffer.value + raw) else None,
            hashed := if hashed.Some? then Some(hashed.value + raw) else None)
    }

    /** All that tells one handshake from another is the same. */
    ghost predicate Like(c: Connection)
    {
      server == c.server && crypto == c.crypto && dropped == c.dropped && ccsArrived == c.ccsArrived
        && leftover == c.leftover
    }

    /** The same parts of the transcript are live. */
    predicate LiveLike(c: Connection)
    {
      buffer.Some? == c.buffer.Some? && hashed.Some? == c.hashed.Some?
    }
  }

  // ---------------------------------------------------------------------------------------
  // The invariant.

  datatype Clause = HistoryIsReplayed | MessagesAccounted | KeysAsNoted | InboxSealed | TranscriptDigested
                  | FlowFollowed

  /**
   What has passed is the flow of RFC 5246 up to place `k`. With `hashed`, the current message is in
   the transcript already but has not been consumed.
   */
  ghost predicate Along(c: Connection, choices: Choices, k: nat, hashed: bool)
  {
    forall q: Clause :: Keeps(c, choices, k, hashed, q)
  }

  ghost predicate Keeps(c: Connection, choices: Choices, k: nat, hashed: bool, q: Clause)
  {
    match q
    case HistoryIsReplayed => c.past == Replay(c.crypto, c.server, c.past.log) && c.past.right
    case MessagesAccounted => c.arrived == c.dropped.received + c.past.received + c.inbox
    case KeysAsNoted => c.readSealed == c.past.readCcs && c.writeSealed == c.past.wroteCcs
    case InboxSealed => AllSealed(c.inbox, c.readSealed)
    case TranscriptDigested =>
      (hashed ==> c.inbox != []) && c.Digests(c.past.messages + if hashed then c.inbox[0].raw else [])
    case FlowFollowed => c.past.steps == Upto(choices, k)
  }

  /** The transcript is the messages that have passed, whichever of its parts are live. */
  lemma Digested(c: Connection, choices: Choices, k: nat, hashed: bool)
    requires Along(c, choices, k, hashed)
    ensures hashed ==> c.inbox != []
    ensures c.Digests(c.past.messages + if hashed then c.inbox[0].raw else [])
    ensures !hashed ==> c.Digests(c.past.messages)
  {
    assert Keeps(c, choices, k, hashed, TranscriptDigested);
    assert c.past.messages + [] == c.past.messages;
  }

  predicate Expected(server: bool, choices: Choices, k: nat, e: Event)
  {
    PlaceOf(choices.resumed, StepOf(e, server)) == k && k != NOWHERE && Spoken(choices, StepOf(e, server))
  }

  lemma Arrived(server: bool, choices: Choices, k: nat, e: Event)
    requires Expected(server, choices, k, e)
    ensures Upto(choices, k + 1) == Upto(choices, k) + [StepOf(e, server)]
  {
    StepAtPlace(choices.resumed, StepOf(e, server));
    UptoNext(choices, k, true, StepOf(e, server));
  }

  method Fresh(server: bool, crypto: Crypto, ghost choices: Choices) returns (c: Connection)
    ensures Along(c, choices, 0, false)
    ensures c == Connection(server, crypto, [], Some([]), None, false, false, EMPTY, EMPTY, [], false, false)
  {
    c := Connection(server, crypto, [], Some([]), None, false, false, EMPTY, EMPTY, [], false, false);
    forall q: Clause ensures Keeps(c, choices, 0, false, q) {
    }
  }

  // ---------------------------------------------------------------------------------------
  // Operations.

  /** More messages come in from the peer, and perhaps the beginning of another. */
  method Receive(c: Connection, ms: seq<Msg>, more: bool, ghost choices: Choices, ghost k: nat)
    returns (after: Connection)
    requires Along(c, choices, k, false) && AllSealed(ms, c.readSealed)
    ensures Along(after, choices, k, false)
    ensures after == c.(inbox := c.inbox + ms, arrived := c.arrived + ms, leftover := more)
  {
    after := c.(inbox := c.inbox + ms, arrived := c.arrived + ms, leftover := more);
    forall q: Clause ensures Keeps(after, choices, k, false, q) {
      assert Keeps(c, choices, k, false, q) && Keeps(c, choices, k, false, InboxSealed);
      AllSealedAppend(c.inbox, ms, c.readSealed);
    }
  }

  /** Whatever the peer sends, records open only under the keys for reading at the time. */
  function UnderCurrentKeys(ms: seq<Msg>, sealed: bool): (r: seq<Msg>)
    ensures AllSealed(r, sealed) && |r| == |ms|
  {
    if ms == [] then [] else [ms[0].(sealed := sealed)] + UnderCurrentKeys(ms[1..], sealed)
  }

  /** The peer's ChangeCipherSpec comes in. */
  method CcsCame(c: Connection, ghost choices: Choices, ghost k: nat) returns (after: Connection)
    requires Along(c, choices, k, false)
    ensures Along(after, choices, k, false) && after == c.(ccsArrived := true)
  {
    after := c.(ccsArrived := true);
    forall q: Clause ensures Keeps(after, choices, k, false, q) {
      assert Keeps(c, choices, k, false, q);
    }
  }

  /**
   What comes in while the machine waits, as far as it is taken: messages, the beginning of one, a
   ChangeCipherSpec.
   */
  method Arrives(c: Connection, messages: bool, ccs: bool, ghost choices: Choices, ghost k: nat)
    returns (after: Connection)
    requires Along(c, choices, k, false)
    ensures Along(after, choices, k, false)
    ensures after == c.(inbox := after.inbox, arrived := after.arrived, leftover := after.leftover,
      ccsArrived := after.ccsArrived)
    ensures c.inbox <= after.inbox && (c.ccsArrived ==> after.ccsArrived)
    ensures (!messages ==> after.inbox == c.inbox) && (!ccs ==> after.ccsArrived == c.ccsArrived)
  {
    var ms: seq<Msg>, more: bool, came: bool := *, *, *;
    after := c;
    if messages {
      after := Receive(after, UnderCurrentKeys(ms, c.readSealed), more, choices, k);
    }
    if ccs && came {
      after := CcsCame(after, choices, k);
    }
  }

  /** The current message, which stays current until it is consumed. */
  function GetMessage(c: Connection): Option<Msg>
  {
    if c.inbox == [] then None else Some(c.inbox[0])
  }

  /** A handler that needs a message of `kind` waits exactly if none has come, and fails on any other. */
  predicate Needs(c: Connection, kind: Kind, ret: Wait)
  {
    if c.inbox == [] then ret == ReadMessage else ret != ReadMessage && (c.inbox[0].kind != kind ==> ret == Error)
  }

  /** A message of `kind` is the current one. */
  predicate Heads(c: Connection, kind: Kind)
  {
    c.inbox != [] && c.inbox[0].kind == kind
  }

  /** There is a current message, and it is another. */
  predicate Wrong(c: Connection, kind: Kind)
  {
    c.inbox != [] && c.inbox[0].kind != kind
  }

  /** The current message goes into the transcript. */
  method HashMessage(c: Connection, ghost choices: Choices, ghost k: nat) returns (after: Connection)
    requires Along(c, choices, k, false) && c.inbox != []
    ensures Along(after, choices, k, true) && after.Like(c) && after.LiveLike(c)
    ensures after.inbox == c.inbox && after.past == c.past && after.writeSealed == c.writeSealed
  {
    after := c.Update(c.inbox[0].raw);
    forall q: Clause ensures Keeps(after, choices, k, true, q) {
      assert Keeps(c, choices, k, false, q);
      assert c.past.messages + [] == c.past.messages;
    }
  }

  /** Without its current message, which has passed. */
  function Taken(c: Connection): Connection
    requires c.inbox != []
  {
    c.(inbox := c.inbox[1..], past := c.Noting(Received(c.inbox[0])))
  }

  lemma TakenHistory(c: Connection, choices: Choices, k: nat)
    requires Along(c, choices, k, true) && c.inbox != []
    requires c.inbox[0].kind == Finished ==> c.inbox[0].body == c.crypto.verifyData(!c.server, c.past.messages)
    requires c.inbox[0].kind == CertificateVerify ==> c.crypto.signatureOk(c.inbox[0].body, c.past.messages)
    ensures Taken(c).past == Replay(c.crypto, c.server, Taken(c).past.log) && Taken(c).past.right
  {
    assert Keeps(c, choices, k, true, HistoryIsReplayed);
    assert Keeps(c, choices, k, true, InboxSealed) && Keeps(c, choices, k, true, KeysAsNoted);
    ReplayNext(c.crypto, c.server, c.past.log, Received(c.inbox[0]));
  }

  lemma TakenKeeps(c: Connection, choices: Choices, k: nat, q: Clause)
    requires Along(c, choices, k, true) && c.inbox != [] && q != HistoryIsReplayed
    requires Expected(c.server, choices, k, Received(c.inbox[0]))
    ensures Keeps(Taken(c), choices, k + 1, false, q)
  {
    assert Keeps(c, choices, k, true, q);
    match q {
      case MessagesAccounted => assert c.inbox == [c.inbox[0]] + c.inbox[1..];
      case TranscriptDigested => assert Taken(c).past.messages + [] == Taken(c).past.messages;
      case FlowFollowed => Arrived(c.server, choices, k, Received(c.inbox[0]));
      case _ =>
    }
  }

  /** The current message, which is what the flow expects next, is consumed. */
  method NextMessage(c: Connection, ghost choices: Choices, ghost k: nat) returns (after: Connection)
    requires Along(c, choices, k, true) && c.inbox != [] && Expected(c.server, choices, k, Received(c.inbox[0]))
    requires c.inbox[0].kind == Finished ==> c.inbox[0].body == c.crypto.verifyData(!c.server, c.past.messages)
    requires c.inbox[0].kind == CertificateVerify ==> c.crypto.signatureOk(c.inbox[0].body, c.past.messages)
    ensures Along(after, choices, k + 1, false) && after.Like(c) && after.LiveLike(c)
    ensures c.inbox[0].kind != ClientKeyExchange ==> after.past.sessionHash == c.past.sessionHash
    ensures c.inbox[0].kind == ClientKeyExchange && c.hashed.Some? ==> after.past.sessionHash == c.hashed.value
  {
    after := Taken(c);
    Digested(c, choices, k, true);
    ghost var next := k + 1;
    forall q: Clause ensures Keeps(after, choices, next, false, q) {
      if q == HistoryIsReplayed {
        TakenHistory(c, choices, k);
      } else {
        TakenKeeps(c, choices, k, q);
      }
    }
  }

  /** The current message is hashed and, if it is accepted, consumed. */
  method Take(c: Connection, accepted: bool, ghost choices: Choices, ghost k: nat) returns (ok: bool, after: Connection)
    requires Along(c, choices, k, false) && c.inbox != [] && Expected(c.server, choices, k, Received(c.inbox[0]))
    requires accepted && c.inbox[0].kind == Finished ==>
      c.inbox[0].body == c.crypto.verifyData(!c.server, c.past.messages)
    requires accepted && c.inbox[0].kind == CertificateVerify ==> c.crypto.signatureOk(c.inbox[0].body, c.past.messages)
    ensures ok == accepted && (ok ==> Along(after, choices, k + 1, false) && after.Like(c) && after.LiveLike(c))
    ensures ok && c.inbox[0].kind != ClientKeyExchange ==> after.past.sessionHash == c.past.sessionHash
    ensures !ok ==> after.inbox == c.inbox
  {
    after := HashMessage(c, choices, k);
    if !accepted {
      return false, after;
    }
    after := NextMessage(after, choices, k);
    return true, after;
  }

  /** A message goes into the outgoing flight and the transcript. */
  method AddMessage(c: Connection, kind: Kind, body: bytes, raw: bytes, ghost choices: Choices, ghost k: nat)
    returns (after: Connection)
    requires Along(c, choices, k, false) && Expected(c.server, choices, k, Sent(Msg(kind, body, raw, c.writeSealed)))
    requires kind == Finished ==> body == c.crypto.verifyData(c.server, c.past.messages)
    requires kind == CertificateVerify ==> body == c.crypto.sign(c.past.messages)
    ensures Along(after, choices, k + 1, false) && after.Like(c) && after.LiveLike(c)
    ensures after.inbox == c.inbox && after.writeSealed == c.writeSealed
    ensures kind != ClientKeyExchange ==> after.past.sessionHash == c.past.sessionHash
    ensures kind == ClientKeyExchange && after.hashed.Some? ==> after.past.sessionHash == after.hashed.value
  {
    ghost var e := Sent(Msg(kind, body, raw, c.writeSealed));
    after := c.Update(raw).(past := c.Noting(Sent(Msg(kind, body, raw, c.writeSealed))));
    Digested(c, choices, k, false);
    ghost var next := k + 1;
    forall q: Clause ensures Keeps(after, choices, next, false, q) {
      assert Keeps(c, choices, k, false, q);
      assert Keeps(c, choices, k, false, HistoryIsReplayed) && Keeps(c, choices, k, false, KeysAsNoted);
      ReplayNext(c.crypto, c.server, c.past.log, e);
      Arrived(c.server, choices, k, e);
      assert after.past.messages + [] == after.past.messages;
    }
  }

  /** ChangeCipherSpec goes into the flight, and the keys for writing change. */
  method ChangeWriteKeys(c: Connection, ghost choices: Choices, ghost k: nat) returns (after: Connection)
    requires Along(c, choices, k, false) && Expected(c.server, choices, k, SentCcs)
    ensures Along(after, choices, k + 1, false) && after.Like(c) && after.LiveLike(c)
    ensures after.inbox == c.inbox && after.writeSealed && after.past.sessionHash == c.past.sessionHash
  {
    after := c.(past := c.Noting(SentCcs), writeSealed := true);
    ghost var next := k + 1;
    forall q: Clause ensures Keeps(after, choices, next, false, q) {
      assert Keeps(c, choices, k, false, q);
      ReplayNext(c.crypto, c.server, c.past.log, SentCcs);
      Arrived(c.server, choices, k, SentCcs);
      assert c.past.messages + [] == c.past.messages;
    }
  }

  /** The keys for reading change; not while anything under the old ones is still waiting. */
  method ChangeReadKeys(c: Connection, ghost choices: Choices, ghost k: nat) returns (ok: bool, after: Connection)
    requires Along(c, choices, k, false) && Expected(c.server, choices, k, ReceivedCcs) && c.ccsArrived
    ensures ok == (c.inbox == [] && !c.leftover) && (!ok ==> after == c)
    ensures ok ==> Along(after, choices, k + 1, false) && after.Like(c) && after.LiveLike(c)
    ensures ok ==> after.inbox == [] && after.readSealed && after.past.sessionHash == c.past.sessionHash
  {
    if |c.inbox| != 0 || c.leftover {
      return false, c;
    }
    after := c.(past := c.Noting(ReceivedCcs), readSealed := true);
    ghost var next := k + 1;
    forall q: Clause ensures Keeps(after, choices, next, false, q) {
      assert Keeps(c, choices, k, false, q);
      ReplayNext(c.crypto, c.server, c.past.log, ReceivedCcs);
      Arrived(c.server, choices, k, ReceivedCcs);
      assert c.past.messages + [] == c.past.messages;
    }
    ok := true;
  }

  method InitHash(c: Connection, ghost choices: Choices, ghost k: nat) returns (after: Connection)
    requires Along(c, choices, k, false) && c.buffer.Some?
    ensures Along(after, choices, k, false) && after == c.(hashed := c.buffer)
  {
    after := c.(hashed := c.buffer);
    forall q: Clause ensures Keeps(after, choices, k, false, q) {
      assert Keeps(c, choices, k, false, q);
    }
  }

  /** The buffer may go once the hash is there. */
  method FreeBuffer(c: Connection, ghost choices: Choices, ghost k: nat, ghost hashed: bool) returns (after: Connection)
    requires Along(c, choices, k, hashed) && c.hashed.Some?
    ensures Along(after, choices, k, hashed) && after == c.(buffer := None)
  {
    after := c.(buffer := None);
    forall q: Clause ensures Keeps(after, choices, k, hashed, q) {
      assert Keeps(c, choices, k, hashed, q);
    }
  }

  /** A HelloVerifyRequest is consumed, and the transcript starts over without it. */
  method StartOver(c: Connection, ghost choices: Choices, ghost k: nat, ghost afresh: Choices)
    returns (after: Connection)
    requires Along(c, choices, k, false) && c.inbox != [] && c.dropped == EMPTY && !c.readSealed && !c.writeSealed
    ensures Along(after, afresh, 0, false)
    ensures after == c.(inbox := c.inbox[1..], dropped := c.Noting(Received(c.inbox[0])), past := EMPTY,
                        buffer := Some([]), hashed := None)
  {
    after := c.(inbox := c.inbox[1..], dropped := c.Noting(Received(c.inbox[0])), past := EMPTY,
                buffer := Some([]), hashed := None);
    forall q: Clause ensures Keeps(after, afresh, 0, false, q) {
      assert Keeps(c, choices, k, false, q);
      assert c.inbox == [c.inbox[0]] + c.inbox[1..];
    }
  }

  /** A place where nothing is spoken is passed in silence. */
  lemma Skip(c: Connection, choices: Choices, k: nat, s: Step)
    requires Along(c, choices, k, false) && PlaceOf(choices.resumed, s) == k && k != NOWHERE && !Spoken(choices, s)
    ensures Along(c, choices, k + 1, false)
  {
    var next := k + 1;
    forall q: Clause ensures Keeps(c, choices, next, false, q) {
      assert Keeps(c, choices, k, false, q);
      StepAtPlace(choices.resumed, s);
      UptoNext(choices, k, false, s);
    }
  }

  /** What is settled later does not change what has passed. */
  lemma Settle(c: Connection, before: Choices, after: Choices, k: nat, hashed: bool)
    requires Along(c, before, k, hashed) && before.resumed == after.resumed
    requires forall i: nat :: i < k ==>
      Spoken(before, StepAt(before.resumed, i)) == Spoken(after, StepAt(after.resumed, i))
    ensures Along(c, after, k, hashed)
  {
    forall q: Clause ensures Keeps(c, after, k, hashed, q) {
      assert Keeps(c, before, k, hashed, q);
      UptoAgrees(before, after, k);
    }
  }

  lemma FirstHello(choices: Choices)
    ensures Upto(choices, 1) == [Client(ClientHello)] && Upto(choices, 0) == []
  {
  }

  /** While at most the first hello has passed, nothing is settled. */
  lemma SettleEarly(c: Connection, before: Choices, after: Choices, k: nat)
    requires Along(c, before, k, false) && k <= 1
    ensures Along(c, after, k, false)
  {
    forall q: Clause ensures Keeps(c, after, k, false, q) {
      assert Keeps(c, before, k, false, q);
      FirstHello(before);
      FirstHello(after);
    }
  }

  // ---------------------------------------------------------------------------------------
  // Finished.

  /** What becomes of reading a Finished: it must cover exactly the messages that have passed. */
  function FinishedAnswer(c: Connection): Wait
  {
    if c.inbox == [] then ReadMessage
    else if c.inbox[0].kind == Finished && c.inbox[0].body == c.crypto.verifyData(!c.server, c.past.messages) then Ok
    else Error
  }

  /** And of reading a CertificateVerify. */
  function VerifyAnswer(c: Connection): Wait
  {
    if c.inbox == [] then ReadMessage
    else if c.inbox[0].kind == CertificateVerify && c.crypto.signatureOk(c.inbox[0].body, c.past.messages) then Ok
    else Error
  }

  /** Compares the peer's Finished with what it must be, snapshotted before it is hashed. */
  method GetFinished(c: Connection, ghost choices: Choices, ghost k: nat) returns (wait: Wait, after: Connection)
    requires Along(c, choices, k, false) && c.hashed.Some?
    requires Expected(c.server, choices, k, Received(Msg(Finished, [], [], true)))
    ensures wait == FinishedAnswer(c)
    ensures wait == ReadMessage ==> after == c
    ensures wait == Error ==> FinishedAnswer(after) == Error
    ensures wait == Ok ==> Along(after, choices, k + 1, false) && after.Like(c) && after.LiveLike(c)
    ensures wait == Ok ==> after.past.sessionHash == c.past.sessionHash
  {
    var msg := GetMessage(c);
    if msg.None? {
      return ReadMessage, c;
    }
    if msg.value.kind != Finished {
      return Error, c;
    }
    Digested(c, choices, k, false);
    var finished := c.crypto.verifyData(!c.server, c.hashed.value);
    after := HashMessage(c, choices, k);
    if msg.value.body != finished {
      return Error, after;
    }
    after := NextMessage(after, choices, k);
    return Ok, after;
  }

  method SendFinished(c: Connection, raw: bytes, ghost choices: Choices, ghost k: nat) returns (after: Connection)
    requires Along(c, choices, k, false) && c.hashed.Some?
    requires Expected(c.server, choices, k, Sent(Msg(Finished, [], [], true)))
    ensures Along(after, choices, k + 1, false) && after.Like(c) && after.LiveLike(c)
    ensures after.inbox == c.inbox && after.past.sessionHash == c.past.sessionHash
  {
    Digested(c, choices, k, false);
    after := AddMessage(c, Finished, c.crypto.verifyData(c.server, c.hashed.value), raw, choices, k);
  }
}
