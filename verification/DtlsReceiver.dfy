/**
 The receiving half of the DTLS handshake transport (RFC 6347, sections 4.2.2 to 4.2.4): a
 ring of seven messages under reassembly, starting at the next message to hand out.

 `Inbox` is the state as a value, and the functions on it say what each operation does;
 `DtlsInbox` is the object the operations change in place, proved against those functions.
 */
module DtlsReceiver {
  import opened Wrappers
  import opened Bytes
  import opened DtlsReassembly

  const MAX_FLIGHT := 7

  datatype ContentType = ApplicationData | ChangeCipherSpec | Handshake | Other

  datatype Alert = InternalError | IllegalParameter | DecodeError | UnexpectedMessage

  datatype Outcome = Success | Discard | Error(alert: Alert)

  datatype Slot = Slot(typ: u8, seqNo: u16, cells: Cells)

  datatype Inbox = Inbox(readSeq: u16, ring: seq<Option<Slot>>, hasMessage: bool, hasCcs: bool, epoch: u16)

  datatype Message = Message(typ: u8, body: bytes, raw: bytes)

  function FreshInbox(): (s: Inbox)
    ensures RingOk(s)
  {
    Inbox(0, seq(MAX_FLIGHT, i => None), false, false, 0)
  }

  /**
   Slot `i` holds only a message of the current window whose number is `i` modulo seven. The
   comparison is between plain numbers: nothing is ever held across the wrap of the 16-bit
   counter. A message being handed out is whole.
   */
  predicate RingOk(s: Inbox)
  {
    && |s.ring| == MAX_FLIGHT
    && (forall i :: 0 <= i < MAX_FLIGHT && s.ring[i].Some? ==>
          && s.ring[i].value.seqNo % MAX_FLIGHT == i
          && s.readSeq <= s.ring[i].value.seqNo < s.readSeq + MAX_FLIGHT
          && |s.ring[i].value.cells| < 0x100_0000)
    && (s.hasMessage ==> CurrentComplete(s))
  }

  predicate CurrentComplete(s: Inbox)
    requires |s.ring| == MAX_FLIGHT
  {
    var slot := s.ring[s.readSeq % MAX_FLIGHT];
    slot.Some? && Complete(slot.value.cells)
  }

  /** Why a fragment is fatal to the connection, if it is. The tests come in this order. */
  function Fault(s: Inbox, maxLen: nat, h: Header): (a: Option<Alert>)
    requires |s.ring| == MAX_FLIGHT
  {
    if h.fragOff > h.msgLen || h.fragOff + h.fragLen > h.msgLen || h.msgLen > maxLen then Some(IllegalParameter)
    else if s.epoch == 1 && h.seqNo != s.readSeq then Some(UnexpectedMessage)
    else if h.seqNo < s.readSeq || h.seqNo > s.readSeq + MAX_FLIGHT then None
    else if h.seqNo - s.readSeq >= MAX_FLIGHT then Some(InternalError)
    else match s.ring[h.seqNo % MAX_FLIGHT]
      case None => None
      case Some(slot) => if slot.typ != h.typ || |slot.cells| != h.msgLen then Some(IllegalParameter) else None
  }

  predicate InWindow(s: Inbox, seqNo: u16)
  {
    s.readSeq <= seqNo < s.readSeq + MAX_FLIGHT
  }

  /** The slot a fragment without fault is received into: the one present, or a new one. */
  function Target(s: Inbox, h: Header): Slot
    requires |s.ring| == MAX_FLIGHT
  {
    match s.ring[h.seqNo % MAX_FLIGHT]
    case None => Slot(h.typ, h.seqNo, Empty(h.msgLen))
    case Some(slot) => slot
  }

  function Received(slot: Slot, off: nat, body: bytes): Slot
    requires off + |body| <= |slot.cells|
  {
    if Complete(slot.cells) then slot else slot.(cells := Overlay(slot.cells, off, body))
  }

  /** The inbox after one fragment without fault: old or far-off ones leave no trace. */
  function Accept(s: Inbox, maxLen: nat, h: Header, body: bytes): (s': Inbox)
    requires |s.ring| == MAX_FLIGHT && |body| == h.fragLen && Fault(s, maxLen, h).None?
    ensures |s'.ring| == MAX_FLIGHT
  {
    if InWindow(s, h.seqNo)
    then s.(ring := s.ring[h.seqNo % MAX_FLIGHT := Some(Received(Target(s, h), h.fragOff, body))])
    else s
  }

  /** All fragments of one handshake record, up to the first fatal one. */
  function TakeFragments(s: Inbox, maxLen: nat, cbs: bytes): (r: (Outcome, Inbox))
    requires |s.ring| == MAX_FLIGHT
    ensures |r.1.ring| == MAX_FLIGHT
    decreases |cbs|
  {
    if cbs == [] then (Success, s) else
    match ParseFragment(cbs)
    case None => (Error(DecodeError), s)
    case Some(f) =>
      match Fault(s, maxLen, f.hdr)
      case Some(alert) => (Error(alert), s)
      case None => TakeFragments(Accept(s, maxLen, f.hdr, f.body), maxLen, f.rest)
  }

  /** One record, already authenticated and decrypted. `plain` says that no cipher is in force yet. */
  function OpenRecord(s: Inbox, plain: bool, maxLen: nat, typ: ContentType, record: bytes): (r: (Outcome, Inbox))
    requires |s.ring| == MAX_FLIGHT
    ensures |r.1.ring| == MAX_FLIGHT
  {
    match typ
    case ApplicationData => (if plain then Error(UnexpectedMessage) else Discard, s)
    case ChangeCipherSpec =>
      if !plain then (Error(UnexpectedMessage), s)
      else if record != [1] then (Error(IllegalParameter), s)
      else (Success, s.(hasCcs := true))
    case Handshake => TakeFragments(s, maxLen, record)
    case Other => (Error(UnexpectedMessage), s)
  }

  function RawMessage(typ: u8, seqNo: u16, body: bytes): bytes
    requires |body| < 0x100_0000
  {
    WireHeader(Header(typ, |body|, seqNo, 0, |body|)) + body
  }

  /** Waiting for a ChangeCipherSpec: one flagged earlier is taken, or the next record must bring it. */
  function OpenChangeCipherSpec(s: Inbox, plain: bool, maxLen: nat, typ: ContentType, record: bytes)
    : (r: (Outcome, Inbox))
    requires |s.ring| == MAX_FLIGHT
    ensures |r.1.ring| == MAX_FLIGHT
  {
    var (o, s1) := if s.hasCcs then (Success, s) else OpenRecord(s, plain, maxLen, typ, record);
    if o != Success then (o, s1) else if s1.hasCcs then (Success, s1.(hasCcs := false)) else (Discard, s1)
  }

  function FrontMessage(s: Inbox): Message
    requires RingOk(s) && CurrentComplete(s)
  {
    var slot := s.ring[s.readSeq % MAX_FLIGHT].value;
    Message(slot.typ, Contents(slot.cells), RawMessage(slot.typ, slot.seqNo, Contents(slot.cells)))
  }

  /** The message at the front, if it is whole. It stays there until `Advance`. */
  function Front(s: Inbox): (r: (Option<Message>, Inbox))
    requires RingOk(s)
    ensures RingOk(r.1)
  {
    if CurrentComplete(s) then (Some(FrontMessage(s)), s.(hasMessage := true)) else (None, s)
  }

  /** The front message is dropped and the window moves on; the counter has 16 bits. */
  function Advance(s: Inbox): (s': Inbox)
    requires RingOk(s) && s.hasMessage
    ensures |s'.ring| == MAX_FLIGHT
  {
    s.(ring := s.ring[s.readSeq % MAX_FLIGHT := None], readSeq := (s.readSeq + 1) % 0x1_0000, hasMessage := false)
  }

  predicate HasUnprocessedData(s: Inbox)
    requires |s.ring| == MAX_FLIGHT
  {
    s.hasCcs || exists i :: 0 <= i < MAX_FLIGHT && s.ring[i].Some? && !(s.hasMessage && i == s.readSeq % MAX_FLIGHT)
  }

  /** The next read epoch, refused while anything of this one is left. */
  function NextEpoch(s: Inbox): Option<Inbox>
    requires |s.ring| == MAX_FLIGHT
  {
    if HasUnprocessedData(s) then None else Some(s.(epoch := (s.epoch + 1) % 0x1_0000))
  }

  // ---------------------------------------------------------------------------------------
  // What every operation keeps.

  /** A slot that is occupied holds the very message a fragment in the window asks for. */
  lemma OccupiedSlotMatches(s: Inbox, seqNo: u16)
    requires RingOk(s) && InWindow(s, seqNo) && s.ring[seqNo % MAX_FLIGHT].Some?
    ensures s.ring[seqNo % MAX_FLIGHT].value.seqNo == seqNo
  {
  }

  lemma AcceptKeepsRing(s: Inbox, maxLen: nat, h: Header, body: bytes)
    requires RingOk(s) && |body| == h.fragLen && Fault(s, maxLen, h).None?
    ensures RingOk(Accept(s, maxLen, h, body))
  {
    if InWindow(s, h.seqNo) && s.ring[h.seqNo % MAX_FLIGHT].Some? {
      OccupiedSlotMatches(s, h.seqNo);
    }
  }

  lemma {:induction false} FragmentsKeepRing(s: Inbox, maxLen: nat, cbs: bytes)
    requires RingOk(s)
    ensures RingOk(TakeFragments(s, maxLen, cbs).1)
    decreases |cbs|
  {
    if cbs != [] && ParseFragment(cbs).Some? {
      var f := ParseFragment(cbs).value;
      if Fault(s, maxLen, f.hdr).None? {
        AcceptKeepsRing(s, maxLen, f.hdr, f.body);
        FragmentsKeepRing(Accept(s, maxLen, f.hdr, f.body), maxLen, f.rest);
      }
    }
  }

  lemma RecordKeepsRing(s: Inbox, plain: bool, maxLen: nat, typ: ContentType, record: bytes)
    requires RingOk(s)
    ensures RingOk(OpenRecord(s, plain, maxLen, typ, record).1)
  {
    if typ == Handshake {
      FragmentsKeepRing(s, maxLen, record);
    }
  }

  /** Handing a message out keeps the ring too, also where the counter wraps. */
  lemma NextKeepsRing(s: Inbox)
    requires RingOk(s) && s.hasMessage
    ensures RingOk(Advance(s))
    ensures s.readSeq == 0xffff ==> forall i :: 0 <= i < MAX_FLIGHT ==> Advance(s).ring[i].None?
  {
    var cur := s.readSeq % MAX_FLIGHT;
    forall i | 0 <= i < MAX_FLIGHT && i != cur && s.ring[i].Some?
      ensures s.ring[i].value.seqNo > s.readSeq
    {
    }
  }

  /**
   The read epoch advances exactly when no ChangeCipherSpec is flagged and the only message
   held, if any, is the one being processed.
   */
  lemma EpochAdvancesWhenDrained(s: Inbox)
    requires RingOk(s)
    ensures NextEpoch(s).Some? <==>
      !s.hasCcs && forall i :: 0 <= i < MAX_FLIGHT && s.ring[i].Some? ==>
        s.hasMessage && s.ring[i].value.seqNo == s.readSeq
    ensures NextEpoch(s).Some? ==>
      RingOk(NextEpoch(s).value) && NextEpoch(s).value == s.(epoch := if s.epoch == 0xffff then 0 else s.epoch + 1)
  {
    forall i | 0 <= i < MAX_FLIGHT && s.ring[i].Some?
      ensures s.ring[i].value.seqNo == s.readSeq <==> i == s.readSeq % MAX_FLIGHT
    {
    }
  }

  /**
   The filter lets a fragment exactly seven ahead through to a step that refuses it: a
   well-formed fragment of a new message is fatal there, and only there.
   */
  lemma SevenAheadIsFatal(s: Inbox, maxLen: nat, h: Header)
    requires RingOk(s) && s.epoch != 1
    requires h.fragOff + h.fragLen <= h.msgLen <= maxLen
    requires InWindow(s, h.seqNo) && s.ring[h.seqNo % MAX_FLIGHT].Some? ==>
      var slot := s.ring[h.seqNo % MAX_FLIGHT].value; slot.typ == h.typ && |slot.cells| == h.msgLen
    ensures Fault(s, maxLen, h) == if h.seqNo == s.readSeq + MAX_FLIGHT then Some(InternalError) else None
  {
  }

  /** Slot `i` already holds a message under the number of the fragment, of another type or length. */
  predicate Mismatch(s: Inbox, h: Header, i: int)
    requires |s.ring| == MAX_FLIGHT
  {
    0 <= i < MAX_FLIGHT && s.ring[i].Some? &&
    var slot := s.ring[i].value; slot.seqNo == h.seqNo && (slot.typ != h.typ || |slot.cells| != h.msgLen)
  }

  /** Which fragments are fatal, and with which alert. */
  lemma FaultExactly(s: Inbox, maxLen: nat, h: Header)
    requires RingOk(s)
    ensures var fits := h.fragOff + h.fragLen <= h.msgLen <= maxLen;
      && (Fault(s, maxLen, h) == Some(UnexpectedMessage) <==> fits && s.epoch == 1 && h.seqNo != s.readSeq)
      && (Fault(s, maxLen, h) == Some(InternalError) <==> fits && s.epoch != 1 && h.seqNo == s.readSeq + 7)
      && (Fault(s, maxLen, h) == Some(IllegalParameter) <==>
            !fits || ((s.epoch == 1 ==> h.seqNo == s.readSeq) && exists i :: Mismatch(s, h, i)))
      && Fault(s, maxLen, h) != Some(DecodeError)
  {
    if InWindow(s, h.seqNo) && s.ring[h.seqNo % MAX_FLIGHT].Some? {
      OccupiedSlotMatches(s, h.seqNo);
      var slot := s.ring[h.seqNo % MAX_FLIGHT].value;
      if slot.typ != h.typ || |slot.cells| != h.msgLen {
        assert Mismatch(s, h, h.seqNo % MAX_FLIGHT);
      }
    }
  }

  /** A ChangeCipherSpec that comes in the clear is flagged, and nothing else is changed. */
  lemma CcsIsFlagged(s: Inbox, maxLen: nat)
    requires |s.ring| == MAX_FLIGHT
    ensures OpenRecord(s, true, maxLen, ChangeCipherSpec, [1]) == (Success, s.(hasCcs := true))
  {
  }

  /** Whoever waits for it gets past it, whether it comes now or came before, and it counts once. */
  lemma CcsIsTakenOnce(s: Inbox, plain: bool, maxLen: nat, typ: ContentType, record: bytes)
    requires |s.ring| == MAX_FLIGHT
    ensures s.hasCcs ==>
      OpenChangeCipherSpec(s, plain, maxLen, typ, record) == (Success, s.(hasCcs := false))
    ensures !s.hasCcs ==> OpenChangeCipherSpec(s, true, maxLen, ChangeCipherSpec, [1]) == (Success, s)
    ensures OpenChangeCipherSpec(s, plain, maxLen, typ, record).0 == Success ==>
      !OpenChangeCipherSpec(s, plain, maxLen, typ, record).1.hasCcs
      && (s.hasCcs || (plain && typ == ChangeCipherSpec && record == [1]))
  {
    if !s.hasCcs && typ == Handshake {
      FragmentsKeepFlag(s, maxLen, record);
    }
  }

  lemma {:induction false} FragmentsKeepFlag(s: Inbox, maxLen: nat, cbs: bytes)
    requires |s.ring| == MAX_FLIGHT
    ensures var s' := TakeFragments(s, maxLen, cbs).1;
      s' == s.(ring := s'.ring)
    decreases |cbs|
  {
    if cbs != [] && ParseFragment(cbs).Some? {
      var f := ParseFragment(cbs).value;
      if Fault(s, maxLen, f.hdr).None? {
        FragmentsKeepFlag(Accept(s, maxLen, f.hdr, f.body), maxLen, f.rest);
      }
    }
  }

  // ---------------------------------------------------------------------------------------

  class DtlsInbox {
    var readSeq: u16
    var hasMessage: bool
    var hasCcs: bool
    var epoch: u16
    const ring: array<HmFragment?>

    ghost var Slots: seq<Option<Slot>>  // what the ring holds
    ghost var Repr: set<object>

    ghost predicate Valid()
      reads this, Repr
      ensures Valid() ==> this in Repr
    {
      && this in Repr && ring in Repr && ring.Length == |Slots| == MAX_FLIGHT
      && (forall i :: 0 <= i < MAX_FLIGHT ==> Holds(ring[i], Slots[i]))
      && (forall i, j :: 0 <= i < j < MAX_FLIGHT && ring[i] != null && ring[j] != null ==> ring[i].Repr !! ring[j].Repr)
    }

    ghost predicate Holds(f: HmFragment?, slot: Option<Slot>)
      reads this, Repr
    {
      if f == null then slot.None?
      else
        && f in Repr && f.Repr <= Repr && this !in f.Repr && ring !in f.Repr
        && f.Valid() && slot == Some(Slot(f.typ, f.seqNo, f.Cells()))
    }

    /** The abstract value of the inbox. */
    ghost function Model(): (s: Inbox)
      reads this
    {
      Inbox(readSeq, Slots, hasMessage, hasCcs, epoch)
    }

    constructor ()
      ensures Valid() && fresh(Repr) && Model() == FreshInbox()
    {
      readSeq, hasMessage, hasCcs, epoch := 0, false, false, 0;
      ring := new HmFragment?[MAX_FLIGHT](_ => null);
      Slots := seq(MAX_FLIGHT, i => None);
      new;
      Repr := {this, ring};
    }

    /** One fragment, through every test, into its slot. */
    method TakeFragment(maxLen: nat, h: Header, body: bytes) returns (alert: Option<Alert>)
      requires Valid() && RingOk(Model()) && |body| == h.fragLen
      modifies Repr
      ensures Valid() && fresh(Repr - old(Repr))
      ensures alert == Fault(old(Model()), maxLen, h)
      ensures Model() == if alert.None? then Accept(old(Model()), maxLen, h, body) else old(Model())
    {
      if h.fragOff > h.msgLen || h.fragOff + h.fragLen > h.msgLen || h.msgLen > maxLen {
        return Some(IllegalParameter);
      }
      // Only Finished is sent in epoch 1.
      if epoch == 1 && h.seqNo != readSeq {
        return Some(UnexpectedMessage);
      }
      if h.seqNo < readSeq || h.seqNo > readSeq + MAX_FLIGHT {
        return None;
      }
      if h.seqNo - readSeq >= MAX_FLIGHT {
        return Some(InternalError);
      }
      var idx := h.seqNo % MAX_FLIGHT;
      var frag := ring[idx];
      assert Holds(ring[idx], Slots[idx]);
      if frag == null {
        AddFragment(idx, h);
      } else if frag.typ != h.typ || frag.msgLen != h.msgLen {
        return Some(IllegalParameter);
      }
      ReceiveInto(idx, h.fragOff, body);
      return None;
    }

    /** The first fragment of a message opens its slot. */
    method AddFragment(idx: nat, h: Header)
      requires Valid() && idx < MAX_FLIGHT && ring[idx] == null
      modifies this, ring
      ensures Valid() && fresh(Repr - old(Repr)) && ring[idx] != null && ring[idx].msgLen == h.msgLen
      ensures Model() == old(Model()).(ring := old(Slots)[idx := Some(Slot(h.typ, h.seqNo, Empty(h.msgLen)))])
    {
      var frag := new HmFragment(h);
      ring[idx] := frag;
      Repr := Repr + frag.Repr;
      Slots := Slots[idx := Some(Slot(h.typ, h.seqNo, Empty(h.msgLen)))];
      forall i | 0 <= i < MAX_FLIGHT ensures Holds(ring[i], Slots[i]) {
        assert i != idx ==> old(Holds(ring[i], Slots[i]));
      }
    }

    /** A fragment of a message still incomplete is copied in; a whole message ignores it. */
    method ReceiveInto(idx: nat, off: nat, body: bytes)
      requires Valid() && idx < MAX_FLIGHT && ring[idx] != null && off + |body| <= ring[idx].msgLen
      modifies Repr
      ensures Valid() && Repr == old(Repr)
      ensures old(Slots[idx]).Some? && |old(Slots[idx]).value.cells| == old(ring[idx]).msgLen
      ensures Model() == old(Model()).(ring := old(Slots)[idx := Some(Received(old(Slots[idx]).value, off, body))])
    {
      var frag := ring[idx];
      assert Holds(frag, Slots[idx]);
      if frag.reassembly == null {
        assert Complete(frag.Cells());
        return;
      }
      NotComplete(frag);
      frag.Receive(off, body);
      Slots := Slots[idx := Some(Received(Slots[idx].value, off, body))];
      forall i | 0 <= i < MAX_FLIGHT ensures Holds(ring[i], Slots[i]) {
        assert i != idx ==> old(Holds(ring[i], Slots[i]));
      }
    }

    lemma NotComplete(frag: HmFragment)
      requires frag.Valid() && frag.reassembly != null
      ensures !Complete(frag.Cells())
    {
      var i :| 0 <= i < frag.msgLen && !BitAt(frag.reassembly[..], i);
      assert frag.Cells()[i].None?;
    }

    method TakeRecord(maxLen: nat, record: bytes) returns (outcome: Outcome)
      requires Valid() && RingOk(Model())
      modifies Repr
      ensures Valid() && fresh(Repr - old(Repr)) && RingOk(Model())
      ensures (outcome, Model()) == TakeFragments(old(Model()), maxLen, record)
    {
      var cbs := record;
      while |cbs| > 0
        invariant Valid() && fresh(Repr - old(Repr)) && RingOk(Model())
        invariant TakeFragments(Model(), maxLen, cbs) == TakeFragments(old(Model()), maxLen, record)
        decreases |cbs|
      {
        var f := ParseFragment(cbs);
        if f.None? {
          return Error(DecodeError);
        }
        ghost var before := Model();
        var alert := TakeFragment(maxLen, f.value.hdr, f.value.body);
        if alert.Some? {
          return Error(alert.value);
        }
        AcceptKeepsRing(before, maxLen, f.value.hdr, f.value.body);
        cbs := f.value.rest;
      }
      return Success;
    }

    /** One authenticated record. */
    method OpenHandshake(plain: bool, maxLen: nat, typ: ContentType, record: bytes) returns (outcome: Outcome)
      requires Valid() && RingOk(Model())
      modifies Repr
      ensures Valid() && fresh(Repr - old(Repr)) && RingOk(Model())
      ensures (outcome, Model()) == OpenRecord(old(Model()), plain, maxLen, typ, record)
      ensures typ == ApplicationData ==>
        outcome == (if plain then Error(UnexpectedMessage) else Discard) && Model() == old(Model())
      ensures typ == ChangeCipherSpec ==>
        && outcome == (if !plain then Error(UnexpectedMessage) else if record == [1] then Success
                       else Error(IllegalParameter))
        && Model() == old(Model()).(hasCcs := old(hasCcs) || (plain && record == [1]))
      ensures typ == Handshake ==> (outcome, Model()) == TakeFragments(old(Model()), maxLen, record)
      ensures typ == Other ==> outcome == Error(UnexpectedMessage) && Model() == old(Model())
    {
      match typ
      case ApplicationData =>
        if plain {
          return Error(UnexpectedMessage);
        }
        return Discard;
      case ChangeCipherSpec =>
        if !plain {
          return Error(UnexpectedMessage);
        }
        if |record| != 1 || record[0] != 1 {
          return Error(IllegalParameter);
        }
        hasCcs := true;
        return Success;
      case Other =>
        return Error(UnexpectedMessage);
      case Handshake =>
        outcome := TakeRecord(maxLen, record);
    }

    method OpenCcs(plain: bool, maxLen: nat, typ: ContentType, record: bytes) returns (outcome: Outcome)
      requires Valid() && RingOk(Model())
      modifies Repr
      ensures Valid() && fresh(Repr - old(Repr)) && RingOk(Model())
      ensures (outcome, Model()) == OpenChangeCipherSpec(old(Model()), plain, maxLen, typ, record)
      ensures old(hasCcs) ==> outcome == Success && Model() == old(Model()).(hasCcs := false)
      ensures !old(hasCcs) && typ == ChangeCipherSpec ==>
        && outcome == (if !plain then Error(UnexpectedMessage) else if record == [1] then Success
                       else Error(IllegalParameter))
        && Model() == old(Model())
    {
      if !hasCcs {
        outcome := OpenHandshake(plain, maxLen, typ, record);
        if outcome != Success {
          return;
        }
      }
      if hasCcs {
        hasCcs := false;
        return Success;
      }
      return Discard;
    }

    method GetMessage() returns (m: Option<Message>)
      requires Valid() && RingOk(Model())
      modifies this`hasMessage
      ensures Valid() && (m, Model()) == Front(old(Model()))
    {
      var idx := readSeq % MAX_FLIGHT;
      var frag := ring[idx];
      assert Holds(frag, Slots[idx]);
      if frag == null {
        return None;
      }
      if frag.reassembly != null {
        NotComplete(frag);
        return None;
      }
      assert Complete(frag.Cells());
      var body := frag.data[HM_HEADER_LENGTH..];
      assert body == Contents(frag.Cells());
      assert frag.data[..] == frag.data[..HM_HEADER_LENGTH] + body;
      hasMessage := true;
      return Some(Message(frag.typ, body, frag.data[..]));
    }

    method NextMessage()
      requires Valid() && RingOk(Model()) && hasMessage
      modifies this, ring
      ensures Valid() && Repr == old(Repr)
      ensures Model() == Advance(old(Model())) && RingOk(Model())
    {
      NextKeepsRing(Model());
      var index := readSeq % MAX_FLIGHT;
      ring[index] := null;
      Slots := Slots[index := None];
      readSeq := (readSeq + 1) % 0x1_0000;
      hasMessage := false;
      forall i | 0 <= i < MAX_FLIGHT ensures Holds(ring[i], Slots[i]) {
        assert i != index ==> old(Holds(ring[i], Slots[i]));
      }
    }

    method SetReadState() returns (ok: bool)
      requires Valid() && RingOk(Model())
      modifies this`epoch
      ensures Valid() && ok == NextEpoch(old(Model())).Some?
      ensures Model() == if ok then NextEpoch(old(Model())).value else old(Model())
      ensures ok ==> epoch == if old(epoch) == 0xffff then 0 else old(epoch) + 1
    {
      if hasCcs {
        return false;
      }
      var current := readSeq % MAX_FLIGHT;
      var i := 0;
      while i < MAX_FLIGHT
        invariant 0 <= i <= MAX_FLIGHT
        invariant forall j :: 0 <= j < i && Slots[j].Some? ==> hasMessage && j == current
      {
        assert Holds(ring[i], Slots[i]);
        if !(hasMessage && i == current) && ring[i] != null {
          return false;
        }
        i := i + 1;
      }
      epoch := (epoch + 1) % 0x1_0000;
      return true;
    }
  }
}
