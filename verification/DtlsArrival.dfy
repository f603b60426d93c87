/**
 Nothing that arrives in time is lost by the receiver: over every run of the network, what it holds of
 a message is what has been delivered of it, and the next message is ready as soon as all of it has.
 */
module DtlsArrival {
  import opened Wrappers
  import opened Bytes
  import opened DtlsReassembly
  import R = DtlsReceiver
  import opened DtlsDelivery

  /** The action brings bytes `off` up to `off + n` of message `k`, which is one the receiver has a slot for. */
  predicate InTime(w: World, a: Action, k: nat, off: nat, n: nat)
  {
    a.Deliver? && |w.handed| <= k < |w.handed| + R.MAX_FLIGHT && IsSlice(w.sent, a.record, k, off, n)
  }

  /** Action `p` of the run was such a one. */
  predicate Piece(run: seq<Action>, p: nat, k: nat, off: nat, n: nat)
  {
    p < |run| && Run(run[..p]).Some? && InTime(Run(run[..p]).value, run[p], k, off, n)
  }

  ghost predicate Started(run: seq<Action>, k: nat)
  {
    exists p: nat, off: nat, n: nat :: Piece(run, p, k, off, n)
  }

  ghost predicate Brought(run: seq<Action>, k: nat, j: nat)
  {
    exists p: nat, off: nat, n: nat :: Piece(run, p, k, off, n) && off <= j < off + n
  }

  /** What the slot for message `k` holds is what has been brought of it. */
  ghost predicate Held(run: seq<Action>, w: World, k: nat)
    requires |w.inbox.ring| == R.MAX_FLIGHT && k < |w.sent|
  {
    var slot := w.inbox.ring[k % R.MAX_FLIGHT];
    && (slot.Some? <==> Started(run, k))
    && (slot.Some? ==>
          && slot.value.seqNo == k && |slot.value.cells| == |w.sent[k].body|
          && forall j: nat :: j < |slot.value.cells| ==> (slot.value.cells[j].Some? <==> Brought(run, k, j)))
  }

  ghost predicate AllHeld(run: seq<Action>, w: World)
    requires |w.inbox.ring| == R.MAX_FLIGHT
  {
    forall k: nat :: |w.handed| <= k < |w.handed| + R.MAX_FLIGHT && k < |w.sent| ==> Held(run, w, k)
  }

  // ---------------------------------------------------------------------------------------
  // One action more.

  lemma PieceNext(run: seq<Action>, w: World, a: Action, p: nat, k: nat, off: nat, n: nat)
    requires Run(run) == Some(w)
    ensures Piece(run + [a], p, k, off, n) <==>
      Piece(run, p, k, off, n) || (p == |run| && InTime(w, a, k, off, n))
  {
    var run' := run + [a];
    if p < |run| {
      assert run'[..p] == run[..p];
    } else if p == |run| {
      assert run'[..p] == run;
    }
  }

  lemma StartedNext(run: seq<Action>, w: World, a: Action, k: nat)
    requires Run(run) == Some(w)
    ensures Started(run + [a], k) <==> Started(run, k) || exists off: nat, n: nat :: InTime(w, a, k, off, n)
  {
    if Started(run, k) {
      var p: nat, off: nat, n: nat :| Piece(run, p, k, off, n);
      PieceNext(run, w, a, p, k, off, n);
    }
    if exists off: nat, n: nat :: InTime(w, a, k, off, n) {
      var off: nat, n: nat :| InTime(w, a, k, off, n);
      PieceNext(run, w, a, |run|, k, off, n);
    }
    if Started(run + [a], k) {
      var p: nat, off: nat, n: nat :| Piece(run + [a], p, k, off, n);
      PieceNext(run, w, a, p, k, off, n);
    }
  }

  lemma BroughtNext(run: seq<Action>, w: World, a: Action, k: nat, j: nat)
    requires Run(run) == Some(w)
    ensures Brought(run + [a], k, j) <==>
      Brought(run, k, j) || exists off: nat, n: nat :: InTime(w, a, k, off, n) && off <= j < off + n
  {
    if Brought(run, k, j) {
      var p: nat, off: nat, n: nat :| Piece(run, p, k, off, n) && off <= j < off + n;
      PieceNext(run, w, a, p, k, off, n);
    }
    if exists off: nat, n: nat :: InTime(w, a, k, off, n) && off <= j < off + n {
      var off: nat, n: nat :| InTime(w, a, k, off, n) && off <= j < off + n;
      PieceNext(run, w, a, |run|, k, off, n);
    }
    if Brought(run + [a], k, j) {
      var p: nat, off: nat, n: nat :| Piece(run + [a], p, k, off, n) && off <= j < off + n;
      PieceNext(run, w, a, p, k, off, n);
    }
  }

  /** An action that brings nothing for message `k` leaves what has been brought of it. */
  lemma NothingBrought(run: seq<Action>, w: World, a: Action, k: nat)
    requires Run(run) == Some(w) && forall off: nat, n: nat :: !InTime(w, a, k, off, n)
    ensures Started(run + [a], k) <==> Started(run, k)
    ensures forall j: nat :: Brought(run + [a], k, j) <==> Brought(run, k, j)
  {
    StartedNext(run, w, a, k);
    forall j: nat ensures Brought(run + [a], k, j) <==> Brought(run, k, j) {
      BroughtNext(run, w, a, k, j);
    }
  }

  /** A record is a slice in one way only. */
  lemma OneSlice(sent: seq<S.Sent>, record: bytes, k: nat, off: nat, n: nat, k': nat, off': nat, n': nat)
    requires IsSlice(sent, record, k, off, n) && IsSlice(sent, record, k', off', n')
    ensures k == k' && off == off' && n == n'
  {
    SliceParses(sent, record, k, off, n);
    SliceParses(sent, record, k', off', n');
  }

  lemma SliceParses(sent: seq<S.Sent>, record: bytes, k: nat, off: nat, n: nat)
    requires IsSlice(sent, record, k, off, n)
    ensures ParseFragment(record).Some?
      && ParseFragment(record).value.hdr == Header(sent[k].typ, |sent[k].body|, k, off, n)
  {
    var h := Header(sent[k].typ, |sent[k].body|, k, off, n);
    ParseInvertsFraming(h, sent[k].body[off..off + n], []);
    assert record == WireHeader(h) + sent[k].body[off..off + n] + [];
  }

  // ---------------------------------------------------------------------------------------
  // What every action keeps.

  /** Slots and messages untouched, and nothing brought. */
  lemma UntouchedHeld(run: seq<Action>, w: World, a: Action, w': World, k: nat)
    requires Run(run) == Some(w) && |w.inbox.ring| == |w'.inbox.ring| == R.MAX_FLIGHT
    requires k < |w.sent| && w.sent <= w'.sent && Held(run, w, k)
    requires w'.inbox.ring[k % R.MAX_FLIGHT] == w.inbox.ring[k % R.MAX_FLIGHT]
    requires forall off: nat, n: nat :: !InTime(w, a, k, off, n)
    ensures Held(run + [a], w', k)
  {
    NothingBrought(run, w, a, k);
  }

  /** Message `k` has only just been queued, or only just come within reach: nothing is held of it. */
  lemma NewHeld(run: seq<Action>, w: World, a: Action, w': World, k: nat)
    requires Run(run) == Some(w) && |w'.inbox.ring| == R.MAX_FLIGHT && k < |w'.sent|
    requires w'.inbox.ring[k % R.MAX_FLIGHT].None? && !Started(run, k)
    requires forall off: nat, n: nat :: !InTime(w, a, k, off, n)
    ensures Held(run + [a], w', k)
  {
    NothingBrought(run, w, a, k);
  }

  /** The world only ever grows. */
  lemma StepGrows(w: World, a: Action)
    requires Sendable(w) && R.RingOk(w.inbox) && Allowed(w, a)
    ensures |w.handed| <= |Do(w, a).handed| && |w.sent| <= |Do(w, a).sent|
  {
  }

  lemma {:induction false} Grows(run: seq<Action>, p: nat)
    requires p <= |run| && Run(run).Some?
    ensures Run(run[..p]).Some?
    ensures |Run(run[..p]).value.handed| <= |Run(run).value.handed|
    ensures |Run(run[..p]).value.sent| <= |Run(run).value.sent|
    decreases |run|
  {
    if p == |run| {
      assert run[..p] == run;
    } else {
      var before := run[..|run| - 1];
      StepGrows(Run(before).value, run[|run| - 1]);
      Grows(before, p);
      assert before[..p] == run[..p];
    }
  }

  /** Nothing is brought of messages that do not exist or are out of reach. */
  lemma NotStarted(run: seq<Action>, w: World, k: nat)
    requires Run(run) == Some(w) && (k >= |w.sent| || k >= |w.handed| + R.MAX_FLIGHT)
    ensures !Started(run, k)
  {
    if Started(run, k) {
      var p: nat, off: nat, n: nat :| Piece(run, p, k, off, n);
      Grows(run, p);
    }
  }

  /** What no fragment was delivered for, a slot is not held for. */
  ghost predicate NothingElse(w: World)
  {
    |w.inbox.ring| == R.MAX_FLIGHT && forall k: nat ::
      |w.sent| <= k && |w.handed| <= k < |w.handed| + R.MAX_FLIGHT ==> w.inbox.ring[k % R.MAX_FLIGHT].None?
  }

  lemma HonestHoldsNothingElse(w: World)
    requires Inv(w) && |w.handed| < NUMBERS
    ensures NothingElse(w)
  {
    forall k: nat | |w.sent| <= k && |w.handed| <= k < |w.handed| + R.MAX_FLIGHT
      ensures w.inbox.ring[k % R.MAX_FLIGHT].None?
    {
      var slot := w.inbox.ring[k % R.MAX_FLIGHT];
      if slot.Some? {
        assert SlotHonest(w.sent, slot.value);
        SameSlot(w.inbox.readSeq, k, slot.value.seqNo);
      }
    }
  }

  /** One window has one number for each slot. */
  lemma SameSlot(first: nat, k: nat, l: nat)
    requires first <= k < first + R.MAX_FLIGHT && first <= l < first + R.MAX_FLIGHT
    ensures k % R.MAX_FLIGHT == l % R.MAX_FLIGHT <==> k == l
  {
  }

  lemma QueueHolds(run: seq<Action>, w: World, a: Action, w': World)
    requires Run(run) == Some(w) && NothingElse(w) && AllHeld(run, w) && !a.Deliver?
    requires w'.inbox == w.inbox && w'.handed == w.handed && |w'.sent| == |w.sent| + 1 && w.sent <= w'.sent
    ensures AllHeld(run + [a], w')
  {
    forall k: nat | |w'.handed| <= k < |w'.handed| + R.MAX_FLIGHT && k < |w'.sent| ensures Held(run + [a], w', k) {
      if k < |w.sent| {
        UntouchedHeld(run, w, a, w', k);
      } else {
        NotStarted(run, w, k);
        NewHeld(run, w, a, w', k);
      }
    }
  }

  lemma ConsumeHolds(run: seq<Action>, w: World, a: Action, w': World)
    requires Run(run) == Some(w) && |w.inbox.ring| == |w'.inbox.ring| == R.MAX_FLIGHT && AllHeld(run, w) && !a.Deliver?
    requires w'.sent == w.sent && |w'.handed| == |w.handed| + 1
    requires w'.inbox.ring == w.inbox.ring[|w.handed| % R.MAX_FLIGHT := None]
    ensures AllHeld(run + [a], w')
  {
    forall k: nat | |w'.handed| <= k < |w'.handed| + R.MAX_FLIGHT && k < |w'.sent| ensures Held(run + [a], w', k) {
      if k < |w.handed| + R.MAX_FLIGHT {
        SameSlot(|w.handed|, k, |w.handed|);
        UntouchedHeld(run, w, a, w', k);
      } else {
        NextRound(|w.handed|, k);
        NotStarted(run, w, k);
        NewHeld(run, w, a, w', k);
      }
    }
  }

  lemma NextRound(n: nat, k: nat)
    requires k == n + R.MAX_FLIGHT
    ensures k % R.MAX_FLIGHT == n % R.MAX_FLIGHT
  {
  }

  lemma ConsumeEmptiesFront(w: World)
    requires Inv(w) && Allowed(w, Consume) && |w.handed| < NUMBERS
    ensures var w' := Do(w, Consume);
      && w'.sent == w.sent && |w'.handed| == |w.handed| + 1
      && w'.inbox.ring == w.inbox.ring[|w.handed| % R.MAX_FLIGHT := None]
  {
  }

  /** Actions that neither deliver nor hand out a message leave what is held. */
  lemma OtherHolds(run: seq<Action>, w: World, a: Action, w': World)
    requires Run(run) == Some(w) && |w.inbox.ring| == R.MAX_FLIGHT && AllHeld(run, w) && !a.Deliver?
    requires w'.inbox.ring == w.inbox.ring && w'.sent == w.sent && w'.handed == w.handed
    ensures AllHeld(run + [a], w')
  {
    forall k: nat | |w'.handed| <= k < |w'.handed| + R.MAX_FLIGHT && k < |w'.sent| ensures Held(run + [a], w', k) {
      UntouchedHeld(run, w, a, w', k);
    }
  }

  /** Bytes `off` up to `off + n` of message `k` go into its slot. */
  lemma ReceivedHeld(run: seq<Action>, w: World, a: Action, w': World, k: nat, off: nat, n: nat)
    requires Run(run) == Some(w) && |w.inbox.ring| == |w'.inbox.ring| == R.MAX_FLIGHT && w'.sent == w.sent
    requires InTime(w, a, k, off, n) && Held(run, w, k)
    requires var h := Header(w.sent[k].typ, |w.sent[k].body|, k, off, n);
      && off + n <= |R.Target(w.inbox, h).cells|
      && w'.inbox.ring[k % R.MAX_FLIGHT] ==
           Some(R.Received(R.Target(w.inbox, h), off, w.sent[k].body[off..off + n]))
    ensures Held(run + [a], w', k)
  {
    StartedNext(run, w, a, k);
    var cells := w'.inbox.ring[k % R.MAX_FLIGHT].value.cells;
    forall j: nat | j < |cells| ensures cells[j].Some? <==> Brought(run + [a], k, j) {
      BroughtNow(run, w, a, k, off, n, j);
    }
  }

  lemma BroughtNow(run: seq<Action>, w: World, a: Action, k: nat, off: nat, n: nat, j: nat)
    requires Run(run) == Some(w) && InTime(w, a, k, off, n)
    ensures Brought(run + [a], k, j) <==> Brought(run, k, j) || off <= j < off + n
    ensures Brought(run, k, j) ==> Started(run, k)
  {
    BroughtNext(run, w, a, k, j);
    forall off': nat, n': nat | InTime(w, a, k, off', n') ensures off' == off && n' == n {
      OneSlice(w.sent, a.record, k, off, n, k, off', n');
    }
  }

  /** What one delivery changes: the slot of the message it is a slice of, if that is within reach. */
  lemma DeliveryFacts(w: World, a: Action, k: nat, off: nat, n: nat)
    requires Inv(w) && Allowed(w, a) && a.Deliver? && |w.handed| < NUMBERS && !Do(w, a).dead
    requires IsSlice(w.sent, a.record, k, off, n)
    ensures var w' := Do(w, a);
      var h := Header(w.sent[k].typ, |w.sent[k].body|, k, off, n);
      && w'.sent == w.sent && w'.handed == w.handed && |w.inbox.ring| == |w'.inbox.ring| == R.MAX_FLIGHT
      && if |w.handed| <= k < |w.handed| + R.MAX_FLIGHT then
           && off + n <= |R.Target(w.inbox, h).cells|
           && w'.inbox.ring == w.inbox.ring[k % R.MAX_FLIGHT :=
                Some(R.Received(R.Target(w.inbox, h), off, w.sent[k].body[off..off + n]))]
         else w'.inbox.ring == w.inbox.ring
  {
    HonestRecord(w.sent, w.inbox, a.plain, a.maxLen, a.record, k, off, n);
  }

  lemma DeliverHolds(run: seq<Action>, w: World, a: Action, w': World, k0: nat, off0: nat, n0: nat)
    requires Run(run) == Some(w) && a.Deliver? && IsSlice(w.sent, a.record, k0, off0, n0)
    requires w'.sent == w.sent && w'.handed == w.handed && |w.inbox.ring| == |w'.inbox.ring| == R.MAX_FLIGHT
    requires AllHeld(run, w)
    requires var h := Header(w.sent[k0].typ, |w.sent[k0].body|, k0, off0, n0);
      if |w.handed| <= k0 < |w.handed| + R.MAX_FLIGHT then
        && off0 + n0 <= |R.Target(w.inbox, h).cells|
        && w'.inbox.ring == w.inbox.ring[k0 % R.MAX_FLIGHT :=
             Some(R.Received(R.Target(w.inbox, h), off0, w.sent[k0].body[off0..off0 + n0]))]
      else w'.inbox.ring == w.inbox.ring
    ensures AllHeld(run + [a], w')
  {
    forall k: nat | |w'.handed| <= k < |w'.handed| + R.MAX_FLIGHT && k < |w'.sent| ensures Held(run + [a], w', k) {
      if k == k0 {
        ReceivedHeld(run, w, a, w', k, off0, n0);
      } else {
        forall off: nat, n: nat ensures !InTime(w, a, k, off, n) {
          if InTime(w, a, k, off, n) {
            OneSlice(w.sent, a.record, k, off, n, k0, off0, n0);
          }
        }
        if |w.handed| <= k0 < |w.handed| + R.MAX_FLIGHT {
          SameSlot(|w.handed|, k0, k);
        }
        UntouchedHeld(run, w, a, w', k);
      }
    }
  }

  lemma ActionHolds(run: seq<Action>, w: World, a: Action)
    requires Run(run) == Some(w) && Inv(w) && Allowed(w, a) && |w.handed| < NUMBERS
    requires AllHeld(run, w) && !Do(w, a).dead
    ensures |Do(w, a).inbox.ring| == R.MAX_FLIGHT && AllHeld(run + [a], Do(w, a))
  {
    match a
    case Queue(m) =>
      HonestHoldsNothingElse(w);
      QueueHolds(run, w, a, Do(w, a));
    case Consume =>
      ConsumeEmptiesFront(w);
      ConsumeHolds(run, w, a, Do(w, a));
    case Deliver(record, _, _) =>
      var k: nat, off: nat, n: nat :| IsSlice(w.sent, record, k, off, n);
      DeliveryFacts(w, a, k, off, n);
      DeliverHolds(run, w, a, Do(w, a), k, off, n);
    case _ => OtherHolds(run, w, a, Do(w, a));
  }

  lemma {:induction false} RunHolds(run: seq<Action>, w: World)
    requires Run(run) == Some(w) && !w.dead && |w.handed| < NUMBERS
    ensures |w.inbox.ring| == R.MAX_FLIGHT && AllHeld(run, w)
    decreases |run|
  {
    if run != [] {
      var before, a := run[..|run| - 1], run[|run| - 1];
      var v := Run(before).value;
      RunKeeps(before);
      RunHolds(before, v);
      assert run == before + [a];
      ActionHolds(before, v, a);
    }
  }

  /**
   The receiver loses nothing and waits for nothing else: over every run, as long as the connection lives
   and the counter has not wrapped, the next message can be handed out exactly if it was sent and every
   byte of it (of an empty one, a fragment) has been delivered at a time when it was within reach.
   */
  lemma ReadyExactlyWhenArrived(run: seq<Action>, w: World)
    requires Run(run) == Some(w) && !w.dead && |w.handed| < NUMBERS
    ensures Sendable(w)
    ensures Allowed(w, Consume) <==>
      var k := |w.handed|;
      k < |w.sent| && Started(run, k) && forall j: nat :: j < |w.sent[k].body| ==> Brought(run, k, j)
  {
    RunKeeps(run);
    RunHolds(run, w);
    var k := |w.handed|;
    if k < |w.sent| {
      assert Held(run, w, k);
    } else {
      HonestHoldsNothingElse(w);
    }
  }
}
