/**
 End to end: one DTLS sender, one receiver and a network between them that may lose, duplicate,
 delay and reorder records. Fragments of any message queued so far may be cut at any time, to
 any size, any number of times, which is what arbitrary MTUs, refused packets and retransmission
 amount to (RFC 6347, sections 4.2.2 to 4.2.6).
 */
module DtlsDelivery {
  import opened Wrappers
  import opened Bytes
  import opened DtlsReassembly
  import R = DtlsReceiver
  import S = DtlsSender

  // ---------------------------------------------------------------------------------------
  // The world.

  /** How many messages have a number of their own. */
  const NUMBERS := 0x1_0000

  datatype World = World(
    sent: seq<S.Sent>,          // message k carries sequence number k
    net: set<bytes>,          // handshake records put on the network so far
    ccs: bool,                // whether a ChangeCipherSpec record is on the network
    inbox: R.Inbox,
    handed: seq<R.Message>,   // messages handed out and consumed
    dead: bool)               // a fatal alert was raised

  datatype Action =
    | Queue(m: S.Sent)
    | Transmit(k: nat, c: S.Cursor, rec: S.OutRecord)
    | TransmitCcs
    | Deliver(record: bytes, plain: bool, maxLen: nat)
    | DeliverCcs(plain: bool, maxLen: nat)
    | TakeCcs
    | Consume
    | ChangeReadEpoch

  predicate Sendable(w: World)
  {
    |w.sent| <= NUMBERS && forall m :: m in w.sent ==> |m.body| < 0x100_0000
  }

  predicate Allowed(w: World, a: Action)
    requires Sendable(w)
  {
    && !w.dead
    && match a
       case Queue(m) => |m.body| < 0x100_0000 && |w.sent| < NUMBERS
       case Transmit(k, c, rec) =>
         k < |w.sent| && w.sent[k] in w.sent && S.Step(S.Outgoing(w.sent[k], k, rec.epoch), c, rec).Some?
       case TransmitCcs => true
       case Deliver(record, _, _) => record in w.net
       case DeliverCcs(_, _) => w.ccs
       case TakeCcs => w.inbox.hasCcs
       case Consume => |w.inbox.ring| == R.MAX_FLIGHT && R.CurrentComplete(w.inbox) && R.RingOk(w.inbox)
       case ChangeReadEpoch => |w.inbox.ring| == R.MAX_FLIGHT && R.NextEpoch(w.inbox).Some?
  }

  function Do(w: World, a: Action): World
    requires Sendable(w) && Allowed(w, a) && R.RingOk(w.inbox)
  {
    match a
    case Queue(m) => w.(sent := w.sent + [m])
    case Transmit(_, _, rec) => w.(net := w.net + {rec.payload})
    case TransmitCcs => w.(ccs := true)
    case Deliver(record, plain, maxLen) =>
      var (o, inbox) := R.OpenRecord(w.inbox, plain, maxLen, R.Handshake, record);
      w.(inbox := inbox, dead := o.Error?)
    case DeliverCcs(plain, maxLen) =>
      var (o, inbox) := R.OpenRecord(w.inbox, plain, maxLen, R.ChangeCipherSpec, [1]);
      w.(inbox := inbox, dead := o.Error?)
    case TakeCcs => w.(inbox := w.inbox.(hasCcs := false))
    case Consume =>
      var (m, inbox) := R.Front(w.inbox);
      w.(inbox := R.Advance(inbox), handed := w.handed + [m.value])
    case ChangeReadEpoch => w.(inbox := R.NextEpoch(w.inbox).value)
  }

  function Begin(): World
  {
    World([], {}, false, R.FreshInbox(), [], false)
  }

  // ---------------------------------------------------------------------------------------
  // What every step keeps.

  /** A record on the network is a slice of a message sent. */
  ghost predicate Honest(sent: seq<S.Sent>, record: bytes)
  {
    exists k: nat, off: nat, n: nat :: IsSlice(sent, record, k, off, n)
  }

  predicate IsSlice(sent: seq<S.Sent>, record: bytes, k: nat, off: nat, n: nat)
  {
    && k < |sent| <= NUMBERS && |sent[k].body| < 0x100_0000 && off + n <= |sent[k].body|
    && record == WireHeader(Header(sent[k].typ, |sent[k].body|, k, off, n)) + sent[k].body[off..off + n]
  }

  ghost predicate SlotHonest(sent: seq<S.Sent>, slot: R.Slot)
  {
    && slot.seqNo < |sent| && slot.typ == sent[slot.seqNo].typ
    && AgreesWith(slot.cells, sent[slot.seqNo].body)
  }

  ghost predicate InboxHonest(sent: seq<S.Sent>, s: R.Inbox)
  {
    && R.RingOk(s)
    && forall i :: 0 <= i < R.MAX_FLIGHT && s.ring[i].Some? ==> SlotHonest(sent, s.ring[i].value)
  }

  /** What is handed out for message `k` is the sender's finished message, byte for byte. */
  predicate Delivered(sent: seq<S.Sent>, k: nat, m: R.Message)
    requires k < |sent| <= NUMBERS && |sent[k].body| < 0x100_0000
  {
    m == R.Message(sent[k].typ, sent[k].body, S.FinishMessage(sent[k].typ, k, sent[k].body))
  }

  ghost predicate Inv(w: World)
  {
    && Sendable(w) && R.RingOk(w.inbox)
    && (|w.handed| < NUMBERS ==> InboxHonest(w.sent, w.inbox) && w.inbox.readSeq == |w.handed| <= |w.sent|)
    && (forall r :: r in w.net ==> Honest(w.sent, r))
    && HandedRight(w)
  }

  /** Up to the wrap of the counter, message `k` handed out is message `k` sent. */
  ghost predicate HandedRight(w: World)
  {
    forall i: nat :: i < |w.handed| && i < NUMBERS ==> RightAt(w.sent, w.handed, i)
  }

  ghost predicate RightAt(sent: seq<S.Sent>, handed: seq<R.Message>, i: nat)
    requires i < |handed| && i < NUMBERS
  {
    i < |sent| <= NUMBERS && |sent[i].body| < 0x100_0000 && Delivered(sent, i, handed[i])
  }

  lemma SlotStaysHonest(sent: seq<S.Sent>, m: S.Sent, s: R.Inbox)
    requires InboxHonest(sent, s)
    ensures InboxHonest(sent + [m], s)
  {
    forall i | 0 <= i < R.MAX_FLIGHT && s.ring[i].Some? ensures SlotHonest(sent + [m], s.ring[i].value) {
      assert SlotHonest(sent, s.ring[i].value);
    }
  }

  lemma QueueKeeps(w: World, m: S.Sent)
    requires Inv(w) && Allowed(w, Queue(m))
    ensures Inv(Do(w, Queue(m)))
  {
    var w' := Do(w, Queue(m));
    if |w.handed| < NUMBERS {
      SlotStaysHonest(w.sent, m, w.inbox);
    }
    forall r | r in w.net ensures Honest(w'.sent, r) {
      var k: nat, off: nat, n: nat :| IsSlice(w.sent, r, k, off, n);
      assert IsSlice(w'.sent, r, k, off, n);
    }
    forall i: nat | i < |w.handed| && i < NUMBERS ensures RightAt(w'.sent, w'.handed, i) {
      assert RightAt(w.sent, w.handed, i);
    }
  }

  /** Whatever the sender puts on the network is a slice of a message it queued. */
  lemma TransmittedIsHonest(sent: seq<S.Sent>, k: nat, c: S.Cursor, rec: S.OutRecord)
    requires k < |sent| <= NUMBERS && |sent[k].body| < 0x100_0000
    requires S.Step(S.Outgoing(sent[k], k, rec.epoch), c, rec).Some?
    ensures Honest(sent, rec.payload)
  {
    S.FinishedIsUnfragmented(sent[k].typ, k, sent[k].body, rec.epoch);
    assert IsSlice(sent, rec.payload, k, c.off, |rec.payload| - HM_HEADER_LENGTH);
  }

  lemma {:induction false} OverlayAgrees(cells: Cells, body: bytes, off: nat, n: nat)
    requires AgreesWith(cells, body) && off + n <= |body|
    ensures AgreesWith(Overlay(cells, off, body[off..off + n]), body)
  {
  }

  lemma AcceptHonest(sent: seq<S.Sent>, s: R.Inbox, maxLen: nat, k: u16, off: nat, n: nat)
    requires InboxHonest(sent, s) && k < |sent| <= NUMBERS && |sent[k].body| < 0x100_0000 && off + n <= |sent[k].body|
    requires var h := Header(sent[k].typ, |sent[k].body|, k, off, n); R.Fault(s, maxLen, h).None?
    ensures var h := Header(sent[k].typ, |sent[k].body|, k, off, n);
      var s' := R.Accept(s, maxLen, h, sent[k].body[off..off + n]);
      InboxHonest(sent, s') && s'.readSeq == s.readSeq
  {
    var h := Header(sent[k].typ, |sent[k].body|, k, off, n);
    var body := sent[k].body[off..off + n];
    R.AcceptKeepsRing(s, maxLen, h, body);
    if R.InWindow(s, k) {
      var idx := k % R.MAX_FLIGHT;
      if s.ring[idx].Some? {
        R.OccupiedSlotMatches(s, k);
        assert SlotHonest(sent, s.ring[idx].value);
      }
      var t := R.Target(s, h);
      assert AgreesWith(t.cells, sent[k].body);
      OverlayAgrees(t.cells, sent[k].body, off, n);
      assert SlotHonest(sent, R.Received(t, off, body));
    }
  }

  /** What one honest record does: it is refused for one of four reasons, or received into its slot. */
  lemma HonestRecord(sent: seq<S.Sent>, s: R.Inbox, plain: bool, maxLen: nat, record: bytes, k: nat, off: nat, n: nat)
    requires InboxHonest(sent, s) && IsSlice(sent, record, k, off, n)
    ensures var h := Header(sent[k].typ, |sent[k].body|, k, off, n);
      R.OpenRecord(s, plain, maxLen, R.Handshake, record) ==
        match R.Fault(s, maxLen, h)
        case Some(alert) => (R.Error(alert), s)
        case None => (R.Success, R.Accept(s, maxLen, h, sent[k].body[off..off + n]))
    ensures R.Fault(s, maxLen, Header(sent[k].typ, |sent[k].body|, k, off, n)) ==
      if |sent[k].body| > maxLen then Some(R.IllegalParameter)
      else if s.epoch == 1 && k != s.readSeq then Some(R.UnexpectedMessage)
      else if k == s.readSeq + R.MAX_FLIGHT then Some(R.InternalError)
      else None
  {
    var h := Header(sent[k].typ, |sent[k].body|, k, off, n);
    var body := sent[k].body[off..off + n];
    ParseInvertsFraming(h, body, []);
    assert record == WireHeader(h) + body + [];
    assert forall s': R.Inbox :: |s'.ring| == R.MAX_FLIGHT ==> R.TakeFragments(s', maxLen, []) == (R.Success, s');
    if R.InWindow(s, k) && s.ring[k % R.MAX_FLIGHT].Some? {
      R.OccupiedSlotMatches(s, k);
      assert SlotHonest(sent, s.ring[k % R.MAX_FLIGHT].value);
    }
  }

  lemma DeliverKeeps(w: World, record: bytes, plain: bool, maxLen: nat)
    requires Inv(w) && Allowed(w, Deliver(record, plain, maxLen))
    ensures Inv(Do(w, Deliver(record, plain, maxLen)))
  {
    R.RecordKeepsRing(w.inbox, plain, maxLen, R.Handshake, record);
    if |w.handed| < NUMBERS {
      DeliveredHonest(w.sent, w.inbox, plain, maxLen, record);
    }
    forall i: nat | i < |w.handed| && i < NUMBERS ensures RightAt(w.sent, w.handed, i) {
    }
  }

  lemma DeliveredHonest(sent: seq<S.Sent>, s: R.Inbox, plain: bool, maxLen: nat, record: bytes)
    requires InboxHonest(sent, s) && Honest(sent, record)
    ensures var s' := R.OpenRecord(s, plain, maxLen, R.Handshake, record).1;
      InboxHonest(sent, s') && s'.readSeq == s.readSeq
  {
    var k: nat, off: nat, n: nat :| IsSlice(sent, record, k, off, n);
    HonestRecord(sent, s, plain, maxLen, record, k, off, n);
    var h := Header(sent[k].typ, |sent[k].body|, k, off, n);
    if R.Fault(s, maxLen, h).None? {
      AcceptHonest(sent, s, maxLen, k, off, n);
    }
  }

  /** The message handed out next is the next message sent. */
  lemma FrontIsNextSent(sent: seq<S.Sent>, s: R.Inbox)
    requires InboxHonest(sent, s) && R.CurrentComplete(s)
    requires s.readSeq < |sent| <= NUMBERS ==> |sent[s.readSeq].body| < 0x100_0000
    requires |sent| <= NUMBERS
    ensures s.readSeq < |sent| && Delivered(sent, s.readSeq, R.FrontMessage(s))
  {
    var slot := s.ring[s.readSeq % R.MAX_FLIGHT].value;
    assert SlotHonest(sent, slot);
    assert slot.seqNo == s.readSeq;
    AgreeingContents(slot.cells, sent[s.readSeq].body);
    S.FinishedIsUnfragmented(sent[s.readSeq].typ, s.readSeq, sent[s.readSeq].body, 0);
  }

  lemma AdvanceHonest(sent: seq<S.Sent>, s: R.Inbox)
    requires InboxHonest(sent, s) && s.hasMessage
    ensures InboxHonest(sent, R.Advance(s))
  {
    R.NextKeepsRing(s);
    var s' := R.Advance(s);
    forall i | 0 <= i < R.MAX_FLIGHT && s'.ring[i].Some? ensures SlotHonest(sent, s'.ring[i].value) {
      assert s'.ring[i] == s.ring[i];
    }
  }

  lemma ConsumeKeeps(w: World)
    requires Inv(w) && Allowed(w, Consume)
    ensures Inv(Do(w, Consume))
  {
    R.NextKeepsRing(R.Front(w.inbox).1);
    if |w.handed| < NUMBERS {
      FrontIsNextSent(w.sent, w.inbox);
      AdvanceHonest(w.sent, R.Front(w.inbox).1);
    }
    var w' := Do(w, Consume);
    forall i: nat | i < |w'.handed| && i < NUMBERS ensures RightAt(w'.sent, w'.handed, i) {
      if i < |w.handed| {
        assert RightAt(w.sent, w.handed, i) && w'.handed[i] == w.handed[i];
      }
    }
  }

  lemma StepKeeps(w: World, a: Action)
    requires Inv(w) && Allowed(w, a)
    ensures Inv(Do(w, a))
  {
    match a
    case Queue(m) => QueueKeeps(w, m);
    case Transmit(k, c, rec) => TransmittedIsHonest(w.sent, k, c, rec);
    case TransmitCcs =>
    case Deliver(record, plain, maxLen) => DeliverKeeps(w, record, plain, maxLen);
    case DeliverCcs(plain, maxLen) => R.RecordKeepsRing(w.inbox, plain, maxLen, R.ChangeCipherSpec, [1]);
    case TakeCcs =>
    case Consume => ConsumeKeeps(w);
    case ChangeReadEpoch => R.EpochAdvancesWhenDrained(w.inbox);
  }

  // ---------------------------------------------------------------------------------------

  /** The world after a run, if every action is allowed when it is taken. */
  function Run(run: seq<Action>): Option<World>
    decreases |run|
  {
    if run == [] then Some(Begin()) else
    match Run(run[..|run| - 1])
    case None => None
    case Some(w) =>
      var a := run[|run| - 1];
      if Sendable(w) && R.RingOk(w.inbox) && Allowed(w, a) then Some(Do(w, a)) else None
  }

  lemma {:induction false} RunKeeps(run: seq<Action>)
    ensures Run(run).Some? ==> Inv(Run(run).value)
    decreases |run|
  {
    if run != [] {
      RunKeeps(run[..|run| - 1]);
      if Run(run).Some? {
        StepKeeps(Run(run[..|run| - 1]).value, run[|run| - 1]);
      }
    }
  }

  /**
   End-to-end delivery: over every run, whatever is lost, duplicated or reordered and however
   messages are cut, what the receiver has handed out is the beginning of what was sent, in
   order, and each message's raw form is the sender's finished message byte for byte. That is so
   for as long as each number has been used once.
   */
  lemma DeliveredInOrder(run: seq<Action>, w: World)
    requires Run(run) == Some(w)
    ensures |w.sent| <= NUMBERS
    ensures |w.handed| <= NUMBERS <==> InOrder(w.sent, w.handed)
  {
    RunKeeps(run);
    if |w.handed| <= NUMBERS {
      forall i: nat | i < |w.handed| ensures RightAt(w.sent, w.handed, i) {
      }
      assert |w.handed| == NUMBERS ==> RightAt(w.sent, w.handed, NUMBERS - 1);
    }
  }

  /** What was handed out is the beginning of what was sent, each message as the sender finished it. */
  ghost predicate InOrder(sent: seq<S.Sent>, handed: seq<R.Message>)
  {
    |handed| <= |sent| && forall i: nat :: i < |handed| && i < NUMBERS ==> RightAt(sent, handed, i)
  }

  /**
   The connection dies in a run only for a record that is oversized, that comes in the encrypted
   epoch with another number than the next one, that is exactly seven messages ahead, or that is
   a ChangeCipherSpec under a cipher.
   */
  lemma DeathHasACause(w: World, a: Action)
    requires Inv(w) && Allowed(w, a) && |w.handed| < NUMBERS && !w.dead && Do(w, a).dead
    ensures
      || (a.DeliverCcs? && !a.plain)
      || (a.Deliver? && exists k: nat, off: nat, n: nat ::
            && IsSlice(w.sent, a.record, k, off, n)
            && (|w.sent[k].body| > a.maxLen || (w.inbox.epoch == 1 && k != |w.handed|)
              || k == |w.handed| + R.MAX_FLIGHT))
  {
    if a.Deliver? {
      var k: nat, off: nat, n: nat :| IsSlice(w.sent, a.record, k, off, n);
      HonestRecord(w.sent, w.inbox, a.plain, a.maxLen, a.record, k, off, n);
    }
  }

  /**
   The network is bound to nothing: as long as the connection lives, whatever was sent may come at any
   time and any number of times, and anything may be cut and sent at any time.
   */
  lemma NetworkIsFree(w: World, record: bytes, plain: bool, maxLen: nat, m: S.Sent)
    requires Sendable(w) && !w.dead
    ensures record in w.net ==> Allowed(w, Deliver(record, plain, maxLen))
    ensures w.ccs ==> Allowed(w, DeliverCcs(plain, maxLen))
    ensures Allowed(w, TransmitCcs)
    ensures |w.sent| < 0x1_0000 && |m.body| < 0x100_0000 ==> Allowed(w, Queue(m))
  {
  }

  /** A ChangeCipherSpec that is delivered in the clear can be taken, and the messages are where they were. */
  lemma CcsArrives(w: World, maxLen: nat)
    requires Sendable(w) && R.RingOk(w.inbox) && Allowed(w, DeliverCcs(true, maxLen))
    ensures var w' := Do(w, DeliverCcs(true, maxLen));
      w' == w.(inbox := w.inbox.(hasCcs := true)) && Allowed(w', TakeCcs)
  {
    R.CcsIsFlagged(w.inbox, maxLen);
  }

  // ---------------------------------------------------------------------------------------
  // The wrap of the counter.

  /** The shortest message with number `k`. */
  function Hello(k: u16): bytes
  {
    R.RawMessage(1, k, [])
  }

  function Hellos(n: nat): (ms: seq<R.Message>)
    requires n <= NUMBERS
    ensures |ms| == n
  {
    seq(n, i requires 0 <= i < n => R.Message(1, [], Hello(i)))
  }

  lemma HellosNext(k: u16)
    ensures Hellos(k + 1) == Hellos(k) + [R.Message(1, [], Hello(k))]
  {
  }

  /** The world after `n` such messages, each sent, delivered and handed out before the next. */
  function Straight(n: nat): World
    requires n <= NUMBERS
  {
    World(seq(n, i => S.Sent(1, [])), set k: nat | k < n :: Hello(k), false,
          Expecting(n % NUMBERS), Hellos(n), false)
  }

  lemma RunNext(run: seq<Action>, w: World, a: Action)
    requires Run(run) == Some(w) && Sendable(w) && R.RingOk(w.inbox) && Allowed(w, a)
    ensures Run(run + [a]) == Some(Do(w, a))
  {
    assert (run + [a])[..|run|] == run;
  }

  function HelloRecord(k: u16): S.OutRecord
  {
    S.OutRecord(R.Handshake, 0, Hello(k), |Hello(k)|)
  }

  lemma HelloIsStep(k: u16)
    ensures S.Step(S.Outgoing(S.Sent(1, []), k, 0), S.Cursor(0, 0), HelloRecord(k)).Some?
  {
    S.FinishedIsUnfragmented(1, k, [], 0);
    assert Hello(k)[HM_HEADER_LENGTH..] == [];
  }

  /** The inbox with nothing in it, expecting message `k`. */
  function Expecting(k: u16): R.Inbox
  {
    R.FreshInbox().(readSeq := k)
  }

  /** Message `k`, delivered whole to an inbox that expects it, ... */
  lemma HelloArrives(w: World, k: u16)
    requires Inv(w) && !w.dead && w.inbox == Expecting(k) && k < |w.sent| && w.sent[k] == S.Sent(1, [])
      && Hello(k) in w.net
    ensures Allowed(w, Deliver(Hello(k), true, 0))
    ensures var slot := Some(R.Slot(1, k, []));
      Do(w, Deliver(Hello(k), true, 0)) == w.(inbox := w.inbox.(ring := w.inbox.ring[k % R.MAX_FLIGHT := slot]))
  {
    assert IsSlice(w.sent, Hello(k), k, 0, 0);
    assert InboxHonest(w.sent, w.inbox);
    HonestRecord(w.sent, w.inbox, true, 0, Hello(k), k, 0, 0);
    assert Empty(0) == [];
  }

  /** ... is handed out at once. */
  lemma HelloConsumed(w: World, k: u16)
    requires Sendable(w) && !w.dead
    requires w.inbox == Expecting(k).(ring := Expecting(k).ring[k % R.MAX_FLIGHT := Some(R.Slot(1, k, []))])
    ensures R.RingOk(w.inbox) && Allowed(w, Consume)
    ensures Do(w, Consume) == w.(inbox := Expecting((k + 1) % NUMBERS),
      handed := w.handed + [R.Message(1, [], Hello(k))])
  {
    assert Contents([]) == [];
    assert w.inbox.ring[k % R.MAX_FLIGHT := None] == Expecting(k).ring;
  }

  lemma HelloPasses(run: seq<Action>, w: World, k: u16) returns (run': seq<Action>)
    requires Run(run) == Some(w) && Inv(w) && !w.dead && w.inbox == Expecting(k)
    requires k < |w.sent| && w.sent[k] == S.Sent(1, []) && Hello(k) in w.net
    ensures Run(run') == Some(w.(inbox := Expecting((k + 1) % NUMBERS),
      handed := w.handed + [R.Message(1, [], Hello(k))]))
  {
    var a := Deliver(Hello(k), true, 0);
    HelloArrives(w, k);
    RunNext(run, w, a);
    var w1 := Do(w, a);
    HelloConsumed(w1, k);
    RunNext(run + [a], w1, Consume);
    run' := run + [a] + [Consume];
  }

  /** One message more is queued ... */
  lemma HelloQueued(run: seq<Action>, k: u16) returns (run': seq<Action>)
    requires Run(run) == Some(Straight(k))
    ensures Run(run') == Some(Straight(k).(sent := Straight(k + 1).sent))
  {
    var queue := Queue(S.Sent(1, []));
    RunNext(run, Straight(k), queue);
    run' := run + [queue];
    assert Straight(k).sent + [S.Sent(1, [])] == Straight(k + 1).sent;
  }

  /** ... and sent. */
  lemma HelloSent(run: seq<Action>, w: World, k: u16) returns (run': seq<Action>)
    requires Run(run) == Some(w) && Sendable(w) && R.RingOk(w.inbox) && !w.dead && k < |w.sent|
      && w.sent[k] == S.Sent(1, [])
    ensures Run(run') == Some(w.(net := w.net + {Hello(k)}))
  {
    var send := Transmit(k, S.Cursor(0, 0), HelloRecord(k));
    HelloIsStep(k);
    assert w.sent[k] in w.sent;
    RunNext(run, w, send);
    run' := run + [send];
  }

  lemma NetNext(k: u16)
    ensures Straight(k).net + {Hello(k)} == Straight(k + 1).net
  {
  }

  /** Message `k` is on its way. */
  function OnItsWay(k: u16): World
  {
    Straight(k).(sent := Straight(k + 1).sent, net := Straight(k + 1).net)
  }

  lemma HelloLeaves(run: seq<Action>, k: u16) returns (run': seq<Action>)
    requires Run(run) == Some(Straight(k))
    ensures Run(run') == Some(OnItsWay(k)) && Inv(OnItsWay(k))
  {
    var w := Straight(k).(sent := Straight(k + 1).sent);
    run' := HelloQueued(run, k);
    RunKeeps(run');
    run' := HelloSent(run', w, k);
    RunKeeps(run');
    NetNext(k);
  }

  lemma StraightStep(run: seq<Action>, k: u16) returns (run': seq<Action>)
    requires Run(run) == Some(OnItsWay(k)) && Inv(OnItsWay(k))
    ensures Run(run') == Some(Straight(k + 1))
  {
    run' := HelloPasses(run, OnItsWay(k), k);
    HellosNext(k);
  }

  lemma {:induction false} StraightRun(n: nat) returns (run: seq<Action>)
    requires n <= NUMBERS
    ensures Run(run) == Some(Straight(n))
  {
    if n == 0 {
      assert Straight(0) == Begin();
      run := [];
    } else {
      run := StraightRun(n - 1);
      run := HelloLeaves(run, n - 1);
      run := StraightStep(run, n - 1);
    }
  }

  /**
   That bound is needed: once every number has been used, a duplicate of the first message is
   handed out again, though nothing more was sent.
   */
  lemma WrapHandsOutAgain() returns (run: seq<Action>)
    ensures Run(run).Some? && |Run(run).value.sent| == NUMBERS && |Run(run).value.handed| == NUMBERS + 1
    ensures Run(run).value.handed[NUMBERS] == Run(run).value.handed[0]
  {
    var before := StraightRun(NUMBERS);
    RunKeeps(before);
    var w := Straight(NUMBERS);
    assert Hello(0) in w.net;
    run := HelloPasses(before, w, 0);
  }

  // ---------------------------------------------------------------------------------------
  // The sending object in this world.

  lemma {:induction false} TilesAreSteps(msgs: seq<S.OutMessage>, recs: seq<S.OutRecord>, c: S.Cursor, i: nat)
    requires S.Tiles(msgs, recs, c) && i < |recs|
    ensures exists b: S.Cursor :: b.msg < |msgs| && S.Step(msgs[b.msg], b, recs[i]).Some?
    decreases |recs|
  {
    var init := recs[..|recs| - 1];
    var b := S.Replay(msgs, init).value;
    if i < |init| {
      TilesAreSteps(msgs, init, b, i);
      assert recs[i] == init[i];
    } else {
      assert S.Step(msgs[b.msg], b, recs[i]).Some?;
    }
  }

  /** Every handshake record of a flight that was made of messages sent is one that may be put on the network. */
  lemma FlightRecordsAreAllowed(w: World, msgs: seq<S.OutMessage>, recs: seq<S.OutRecord>, c: S.Cursor, i: nat)
    requires Sendable(w) && !w.dead && S.Numbered(w.sent, msgs)
    requires S.Tiles(msgs, recs, c) && i < |recs| && recs[i].typ == R.Handshake
    ensures exists k: nat, b: S.Cursor :: Allowed(w, Transmit(k, b, recs[i]))
  {
    TilesAreSteps(msgs, recs, c, i);
    var b: S.Cursor :| b.msg < |msgs| && S.Step(msgs[b.msg], b, recs[i]).Some?;
    assert msgs[b.msg] in msgs;
    var k: nat :| S.IsQueued(w.sent, msgs[b.msg], k);
    StepIsAllowed(w, msgs[b.msg], k, b, recs[i]);
  }

  lemma StepIsAllowed(w: World, m: S.OutMessage, k: nat, b: S.Cursor, rec: S.OutRecord)
    requires Sendable(w) && !w.dead && S.IsQueued(w.sent, m, k) && S.Step(m, b, rec).Some?
    ensures Allowed(w, Transmit(k, b, rec))
  {
    S.StepKeepsEpoch(m, b, rec);
    assert w.sent[k] in w.sent && k % NUMBERS == k;
    assert m == S.Outgoing(w.sent[k], k, rec.epoch);
  }

  /** The sending object makes its flights of such messages, so what it emits is what the network model lets through. */
  lemma ObjectSendsAllowed(f: S.DtlsFlight, w: World, i: nat)
    requires f.Valid() && f.Genuine() && w.sent == f.queued && |f.queued| <= NUMBERS && !w.dead
    requires i < |f.log| && f.log[i].rec.typ == R.Handshake
    ensures exists k: nat, b: S.Cursor :: Allowed(w, Transmit(k, b, f.log[i].rec))
  {
    FlightRecordsAreAllowed(w, f.messages, S.Records(f.log), S.Cursor(f.written, f.offset), i);
  }
}
