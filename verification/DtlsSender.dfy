/**
 The sending half of the DTLS handshake transport (RFC 6347, sections 4.2.3 and 4.2.4): a
 flight of at most seven messages is cut into fragments that fit the MTU, several to a packet,
 and may be rewound and sent again.
 */
module DtlsSender {
  import opened Wrappers
  import opened Bytes
  import opened DtlsReassembly
  import opened DtlsReceiver

  const RECORD_HEADER_LENGTH := 13

  datatype OutMessage = OutMessage(data: bytes, epoch: u16, isCcs: bool)

  /** One record put into a packet: its plaintext and its length on the wire. */
  datatype OutRecord = OutRecord(typ: ContentType, epoch: u16, payload: bytes, wireLen: nat)

  datatype Cursor = Cursor(msg: nat, off: nat)

  // ---------------------------------------------------------------------------------------
  // What it means for records to tile a flight.

  /** A handshake message is queued as one unfragmented fragment. */
  predicate WellFormed(m: OutMessage)
  {
    m.isCcs ||
    (ParseFragment(m.data).Some? &&
     var f := ParseFragment(m.data).value;
     f.hdr.fragOff == 0 && f.hdr.fragLen == f.hdr.msgLen && f.rest == [])
  }

  function Whole(m: OutMessage): Fragment
    requires WellFormed(m) && !m.isCcs
  {
    ParseFragment(m.data).value
  }

  /** The fragment of `f` that starts at `off` and carries `n` body bytes. */
  function Slice(f: Fragment, off: nat, n: nat): bytes
    requires off + n <= |f.body| < 0x100_0000
  {
    WireHeader(Header(f.hdr.typ, |f.body|, f.hdr.seqNo, off, n)) + f.body[off..off + n]
  }

  /** The cursor after `r`, if `r` is exactly a next piece of message `m` from `off` on. */
  function Step(m: OutMessage, c: Cursor, r: OutRecord): Option<Cursor>
  {
    if r.epoch != m.epoch then None
    else if m.isCcs then
      if r.typ == ChangeCipherSpec && r.payload == [1] && c.off == 0 then Some(Cursor(c.msg + 1, 0)) else None
    else if !WellFormed(m) then None
    else StepIn(Whole(m), c, r)
  }

  function StepIn(f: Fragment, c: Cursor, r: OutRecord): Option<Cursor>
    requires |f.body| < 0x100_0000
  {
    var n := |r.payload| - HM_HEADER_LENGTH;
    if r.typ == Handshake && 0 <= n && c.off + n <= |f.body| && (n > 0 || f.body == [])
      && r.payload == Slice(f, c.off, n)
    then Some(if c.off + n == |f.body| then Cursor(c.msg + 1, 0) else Cursor(c.msg, c.off + n))
    else None
  }

  /** Where the flight stands after `recs`, if each record starts where the one before it ended. */
  function Replay(msgs: seq<OutMessage>, recs: seq<OutRecord>): (c: Option<Cursor>)
    ensures c.Some? ==> c.value.msg <= |msgs|
    decreases |recs|
  {
    if recs == [] then Some(Cursor(0, 0)) else
    match Replay(msgs, recs[..|recs| - 1])
    case None => None
    case Some(b) => if b.msg < |msgs| then Step(msgs[b.msg], b, recs[|recs| - 1]) else None
  }

  predicate Tiles(msgs: seq<OutMessage>, recs: seq<OutRecord>, c: Cursor)
  {
    Replay(msgs, recs) == Some(c)
  }

  lemma StepKeepsEpoch(m: OutMessage, c: Cursor, r: OutRecord)
    requires Step(m, c, r).Some?
    ensures r.epoch == m.epoch
  {
  }

  lemma TilesNext(msgs: seq<OutMessage>, recs: seq<OutRecord>, c: Cursor, r: OutRecord, c': Cursor)
    requires Tiles(msgs, recs, c) && c.msg < |msgs| && Step(msgs[c.msg], c, r) == Some(c')
    ensures Tiles(msgs, recs + [r], c')
  {
    assert (recs + [r])[..|recs|] == recs;
  }

  /** Adding messages at the end of the flight disturbs nothing already sent. */
  lemma {:induction false} TilesGrow(msgs: seq<OutMessage>, recs: seq<OutRecord>, m: OutMessage)
    ensures Replay(msgs, recs).Some? ==> Replay(msgs + [m], recs) == Replay(msgs, recs)
    decreases |recs|
  {
    if recs != [] {
      TilesGrow(msgs, recs[..|recs| - 1], m);
    }
  }

  // ---------------------------------------------------------------------------------------
  // Building a message.

  /** The message as begun: both length fields are still open. */
  function InitMessage(typ: u8, seqNo: u16): bytes
  {
    [typ] + EncodeU24(0) + EncodeU16(seqNo) + EncodeU24(0)
  }

  /** The finished message: the fragment length has been filled in and is copied into the total length. */
  function FinishMessage(typ: u8, seqNo: u16, body: bytes): bytes
    requires |body| < 0x100_0000
  {
    var msg := InitMessage(typ, seqNo) + EncodeU24(|body|) + body;
    msg[..1] + msg[9..12] + msg[4..]
  }

  /** The two steps give the unfragmented form, which is what both sides hash. */
  lemma FinishedIsUnfragmented(typ: u8, seqNo: u16, body: bytes, epoch: u16)
    requires |body| < 0x100_0000
    ensures FinishMessage(typ, seqNo, body) == RawMessage(typ, seqNo, body)
    ensures var m := OutMessage(FinishMessage(typ, seqNo, body), epoch, false);
      WellFormed(m) && Whole(m) == Fragment(Header(typ, |body|, seqNo, 0, |body|), body, [])
  {
    var msg := InitMessage(typ, seqNo) + EncodeU24(|body|) + body;
    assert msg[..1] == [typ] && msg[9..12] == EncodeU24(|body|) && msg[4..6] == EncodeU16(seqNo);
    assert msg[4..] == EncodeU16(seqNo) + EncodeU24(0) + EncodeU24(|body|) + body;
    var h := Header(typ, |body|, seqNo, 0, |body|);
    ParseInvertsFraming(h, body, []);
    assert WireHeader(h) + body + [] == RawMessage(typ, seqNo, body);
  }

  datatype Sent = Sent(typ: u8, body: bytes)

  function Outgoing(m: Sent, k: u16, epoch: u16): OutMessage
    requires |m.body| < 0x100_0000
  {
    OutMessage(FinishMessage(m.typ, k, m.body), epoch, false)
  }

  /** `m` is message `k` of `sent`, under the number that the counter had then. */
  predicate IsQueued(sent: seq<Sent>, m: OutMessage, k: nat)
  {
    k < |sent| && |sent[k].body| < 0x100_0000 && m == Outgoing(sent[k], k % 0x1_0000, m.epoch)
  }

  /** All handshake messages in a flight are messages of `sent`. */
  ghost predicate Numbered(sent: seq<Sent>, msgs: seq<OutMessage>)
  {
    forall m :: m in msgs && !m.isCcs ==> exists k: nat :: IsQueued(sent, m, k)
  }

  /** A flight of messages of `sent`, which are all that have been numbered. */
  ghost predicate Built(sent: seq<Sent>, msgs: seq<OutMessage>, next: u16)
  {
    && Numbered(sent, msgs) && next == |sent| % 0x1_0000
    && forall s :: s in sent ==> |s.body| < 0x100_0000
  }

  lemma StillQueued(sent: seq<Sent>, s: Sent, x: OutMessage)
    requires exists k: nat :: IsQueued(sent, x, k)
    ensures exists k: nat :: IsQueued(sent + [s], x, k)
  {
    var k: nat :| IsQueued(sent, x, k);
    assert IsQueued(sent + [s], x, k);
  }

  lemma NextNumber(n: nat)
    ensures (n + 1) % 0x1_0000 == (n % 0x1_0000 + 1) % 0x1_0000
  {
  }

  lemma BuiltGrows(sent: seq<Sent>, msgs: seq<OutMessage>, s: Sent, m: OutMessage, next: u16)
    requires Built(sent, msgs, next) && |s.body| < 0x100_0000 && m == Outgoing(s, next, m.epoch)
    ensures Built(sent + [s], msgs + [m], (next + 1) % 0x1_0000)
  {
    NextNumber(|sent|);
    assert IsQueued(sent + [s], m, |sent|);
    forall x | x in msgs + [m] && !x.isCcs ensures exists k: nat :: IsQueued(sent + [s], x, k) {
      if x in msgs {
        StillQueued(sent, s, x);
      }
    }
  }

  /** A ChangeCipherSpec has no number. */
  lemma BuiltPasses(sent: seq<Sent>, msgs: seq<OutMessage>, m: OutMessage, next: u16)
    requires Built(sent, msgs, next) && m.isCcs
    ensures Built(sent, msgs + [m], next)
  {
  }

  // ---------------------------------------------------------------------------------------
  // What tiling records carry.

  function BodyIn(r: OutRecord): bytes
  {
    if r.typ == Handshake && HM_HEADER_LENGTH <= |r.payload| then r.payload[HM_HEADER_LENGTH..] else []
  }

  /** The body bytes that the records carry, in order. */
  function Carried(recs: seq<OutRecord>): bytes
  {
    if recs == [] then [] else Carried(recs[..|recs| - 1]) + BodyIn(recs[|recs| - 1])
  }

  function BodyOf(m: OutMessage): bytes
  {
    if !m.isCcs && WellFormed(m) then Whole(m).body else []
  }

  function BodiesOf(msgs: seq<OutMessage>): (bs: seq<bytes>)
    ensures |bs| == |msgs|
  {
    seq(|msgs|, i requires 0 <= i < |msgs| => BodyOf(msgs[i]))
  }

  predicate CursorOk(bs: seq<bytes>, c: Cursor)
  {
    c.msg <= |bs| && (c.off > 0 ==> c.msg < |bs| && c.off < |bs[c.msg]|)
  }

  /** The bytes of the flight before the cursor. */
  function UpTo(bs: seq<bytes>, c: Cursor): bytes
    requires CursorOk(bs, c)
  {
    Flatten(bs[..c.msg]) + (if c.off == 0 then [] else bs[c.msg][..c.off])
  }

  /** A step inside one message: the bytes carried are the next bytes of its body. */
  lemma StepCarries(m: OutMessage, c: Cursor, r: OutRecord)
    requires Step(m, c, r).Some? && (c.off > 0 ==> c.off < |BodyOf(m)|)
    ensures var c' := Step(m, c, r).value;
      && c.off + |BodyIn(r)| <= |BodyOf(m)|
      && BodyIn(r) == BodyOf(m)[c.off..c.off + |BodyIn(r)|]
      && c' == if c.off + |BodyIn(r)| == |BodyOf(m)| then Cursor(c.msg + 1, 0) else Cursor(c.msg, c.off + |BodyIn(r)|)
  {
  }

  function Moved(bs: seq<bytes>, c: Cursor, n: nat): Cursor
    requires c.msg < |bs|
  {
    if c.off + n == |bs[c.msg]| then Cursor(c.msg + 1, 0) else Cursor(c.msg, c.off + n)
  }

  lemma FlattenNext(bs: seq<bytes>, i: nat)
    requires i < |bs|
    ensures Flatten(bs[..i + 1]) == Flatten(bs[..i]) + bs[i]
  {
    assert bs[..i + 1] == bs[..i] + [bs[i]];
    FlattenAppend(bs[..i], [bs[i]]);
    assert Flatten([bs[i]]) == bs[i];
  }

  lemma MovedCarries(bs: seq<bytes>, c: Cursor, n: nat)
    requires CursorOk(bs, c) && c.msg < |bs| && c.off + n <= |bs[c.msg]|
    ensures CursorOk(bs, Moved(bs, c, n))
    ensures UpTo(bs, Moved(bs, c, n)) == UpTo(bs, c) + bs[c.msg][c.off..c.off + n]
  {
    var body := bs[c.msg];
    FlattenNext(bs, c.msg);
    assert body[..c.off] + body[c.off..c.off + n] == body[..c.off + n];
    assert body[..|body|] == body;
  }

  lemma CursorBounds(msgs: seq<OutMessage>, recs: seq<OutRecord>, c: Cursor)
    requires Tiles(msgs, recs, c)
    ensures c.msg <= |msgs|
    ensures c.off > 0 ==> c.msg < |msgs| && c.off < |BodyOf(msgs[c.msg])|
  {
    TilesCarryTheFlight(msgs, recs, c);
  }

  lemma CarriedStep(recs: seq<OutRecord>)
    requires recs != []
    ensures Carried(recs) == Carried(recs[..|recs| - 1]) + BodyIn(recs[|recs| - 1])
  {
  }

  // ---------------------------------------------------------------------------------------
  // Progress: every record moves the cursor, by an amount its plaintext shows.

  function Weight(r: OutRecord): nat
  {
    if r.typ != Handshake then 1 else
    match ParseFragment(r.payload)
    case None => 0
    case Some(f) => |f.body| + if f.hdr.fragOff + |f.body| == f.hdr.msgLen then 1 else 0
  }

  function TotalWeight(recs: seq<OutRecord>): nat
  {
    if recs == [] then 0 else TotalWeight(recs[..|recs| - 1]) + Weight(recs[|recs| - 1])
  }

  function Position(bs: seq<bytes>, c: Cursor): nat
    requires CursorOk(bs, c)
  {
    |UpTo(bs, c)| + c.msg
  }

  lemma SliceWeight(f: Fragment, off: nat, n: nat, r: OutRecord)
    requires off + n <= |f.body| < 0x100_0000 && r.typ == Handshake && r.payload == Slice(f, off, n)
    ensures Weight(r) == n + if off + n == |f.body| then 1 else 0
  {
    var h := Header(f.hdr.typ, |f.body|, f.hdr.seqNo, off, n);
    var slice := f.body[off..off + n];
    ParseInvertsFraming(h, slice, []);
    assert r.payload == WireHeader(h) + slice + [];
  }

  lemma StepWeight(m: OutMessage, c: Cursor, r: OutRecord)
    requires Step(m, c, r).Some? && (c.off > 0 ==> c.off < |BodyOf(m)|)
    ensures Weight(r) > 0
    ensures Weight(r) == |BodyIn(r)| + if c.off + |BodyIn(r)| == |BodyOf(m)| then 1 else 0
  {
    if !m.isCcs {
      SliceWeight(Whole(m), c.off, |r.payload| - HM_HEADER_LENGTH, r);
    }
  }

  /** What a step carries is what comes next. */
  lemma StepCarriesOn(msgs: seq<OutMessage>, b: Cursor, r: OutRecord, c: Cursor)
    requires b.msg < |msgs| && CursorOk(BodiesOf(msgs), b) && Step(msgs[b.msg], b, r) == Some(c)
    ensures CursorOk(BodiesOf(msgs), c) && UpTo(BodiesOf(msgs), c) == UpTo(BodiesOf(msgs), b) + BodyIn(r)
    ensures c.msg == b.msg + if b.off + |BodyIn(r)| == |BodyOf(msgs[b.msg])| then 1 else 0
  {
    StepCarries(msgs[b.msg], b, r);
    assert c == Moved(BodiesOf(msgs), b, |BodyIn(r)|);
    MovedCarries(BodiesOf(msgs), b, |BodyIn(r)|);
  }

  lemma StepMoves(msgs: seq<OutMessage>, b: Cursor, r: OutRecord, c: Cursor)
    requires b.msg < |msgs| && CursorOk(BodiesOf(msgs), b) && Step(msgs[b.msg], b, r) == Some(c)
    ensures CursorOk(BodiesOf(msgs), c) && UpTo(BodiesOf(msgs), c) == UpTo(BodiesOf(msgs), b) + BodyIn(r)
    ensures Weight(r) > 0 && Position(BodiesOf(msgs), c) == Position(BodiesOf(msgs), b) + Weight(r)
  {
    StepCarriesOn(msgs, b, r, c);
    StepWeight(msgs[b.msg], b, r);
  }

  /** No gap and no overlap: what tiling records carry is the flight's bytes up to the cursor, each once. */
  lemma {:induction false} TilesCarryTheFlight(msgs: seq<OutMessage>, recs: seq<OutRecord>, c: Cursor)
    requires Tiles(msgs, recs, c)
    ensures CursorOk(BodiesOf(msgs), c) && Carried(recs) == UpTo(BodiesOf(msgs), c)
    decreases |recs|
  {
    if recs != [] {
      var r, b := recs[|recs| - 1], Replay(msgs, recs[..|recs| - 1]).value;
      TilesCarryTheFlight(msgs, recs[..|recs| - 1], b);
      StepMoves(msgs, b, r, c);
      CarriedStep(recs);
    }
  }

  predicate AllWeigh(recs: seq<OutRecord>)
  {
    recs == [] || (AllWeigh(recs[..|recs| - 1]) && Weight(recs[|recs| - 1]) > 0)
  }

  lemma {:induction false} TilesWeight(msgs: seq<OutMessage>, recs: seq<OutRecord>, c: Cursor)
    requires Tiles(msgs, recs, c)
    ensures CursorOk(BodiesOf(msgs), c) && Position(BodiesOf(msgs), c) == TotalWeight(recs) && AllWeigh(recs)
    decreases |recs|
  {
    if recs != [] {
      var r, b := recs[|recs| - 1], Replay(msgs, recs[..|recs| - 1]).value;
      TilesWeight(msgs, recs[..|recs| - 1], b);
      StepMoves(msgs, b, r, c);
    }
  }

  // ---------------------------------------------------------------------------------------
  // Records sealed and then lost.

  /** A record the cursor has passed, and whether the transport accepted it. */
  datatype Passed = Passed(rec: OutRecord, accepted: bool)

  function Records(log: seq<Passed>): (recs: seq<OutRecord>)
    ensures |recs| == |log| && forall i :: 0 <= i < |log| ==> recs[i] == log[i].rec
  {
    seq(|log|, i requires 0 <= i < |log| => log[i].rec)
  }

  function AcceptedRecords(log: seq<Passed>): seq<OutRecord>
  {
    if log == [] then [] else
    var last := log[|log| - 1];
    AcceptedRecords(log[..|log| - 1]) + if last.accepted then [last.rec] else []
  }

  predicate NothingLost(log: seq<Passed>)
  {
    forall i :: 0 <= i < |log| ==> log[i].accepted
  }

  lemma WeightOfAppended(recs: seq<OutRecord>, r: OutRecord)
    ensures TotalWeight(recs + [r]) == TotalWeight(recs) + Weight(r)
  {
    assert (recs + [r])[..|recs|] == recs;
  }

  lemma WeighSplit(recs: seq<OutRecord>, r: OutRecord)
    ensures AllWeigh(recs + [r]) <==> AllWeigh(recs) && Weight(r) > 0
  {
    assert (recs + [r])[..|recs|] == recs;
  }

  lemma {:induction false} LogWeights(log: seq<Passed>)
    requires AllWeigh(Records(log))
    ensures NothingLost(log) ==> AcceptedRecords(log) == Records(log)
    ensures TotalWeight(AcceptedRecords(log)) <= TotalWeight(Records(log))
    ensures !NothingLost(log) ==> TotalWeight(AcceptedRecords(log)) < TotalWeight(Records(log))
    decreases |log|
  {
    if log != [] {
      var init, last := log[..|log| - 1], log[|log| - 1];
      LogSplit(log);
      WeighSplit(Records(init), last.rec);
      LogWeights(init);
      WeightOfAppended(Records(init), last.rec);
      WeightOfAppended(AcceptedRecords(init), last.rec);
      assert AcceptedRecords(init) + [] == AcceptedRecords(init);
    }
  }

  lemma LogSplit(log: seq<Passed>)
    requires log != []
    ensures var init, last := log[..|log| - 1], log[|log| - 1];
      && Records(log) == Records(init) + [last.rec]
      && AcceptedRecords(log) == AcceptedRecords(init) + (if last.accepted then [last.rec] else [])
      && (NothingLost(log) <==> NothingLost(init) && last.accepted)
  {
    var init, last := log[..|log| - 1], log[|log| - 1];
    if NothingLost(init) && last.accepted {
      forall i | 0 <= i < |log| ensures log[i].accepted {
        if i < |init| { assert init[i].accepted; }
      }
    }
  }

  /**
   Flight tiling, exactly: what the transport accepted since the last rewind tiles the flight up
   to the cursor if and only if no record was sealed into a packet that was then given up.
   */
  lemma AcceptedTilesIffNothingLost(msgs: seq<OutMessage>, log: seq<Passed>, c: Cursor)
    requires Tiles(msgs, Records(log), c)
    ensures Tiles(msgs, AcceptedRecords(log), c) <==> NothingLost(log)
  {
    TilesWeight(msgs, Records(log), c);
    LogWeights(log);
    if Tiles(msgs, AcceptedRecords(log), c) {
      TilesWeight(msgs, AcceptedRecords(log), c);
    }
  }

  /** And something can be lost: the cursor has passed a record that never went out. */
  lemma SomethingCanBeLost() returns (msgs: seq<OutMessage>, log: seq<Passed>, c: Cursor)
    ensures Tiles(msgs, Records(log), c) && !NothingLost(log)
    ensures c == Cursor(|msgs|, 0) && AcceptedRecords(log) == []
  {
    var ccs := OutRecord(ChangeCipherSpec, 0, [1], RECORD_HEADER_LENGTH + 1);
    msgs, log, c := [OutMessage([], 0, true)], [Passed(ccs, false)], Cursor(1, 0);
    assert Records(log) == [] + [ccs];
    TilesNext(msgs, [], Cursor(0, 0), ccs, c);
    assert !log[0].accepted;
  }

  // ---------------------------------------------------------------------------------------

  const MIN_MTU := 256 - 28
  const DEFAULT_MTU := 1500 - 28

  datatype SealResult = SealError | SealNoProgress | SealPartial | SealSuccess

  /** What sealing adds to a plaintext in one epoch: an explicit nonce before it and at most `maxTag` bytes after. */
  datatype Cipher = Cipher(nonceLen: nat, maxTag: nat)

  function Overhead(c: Cipher): nat
  {
    RECORD_HEADER_LENGTH + c.nonceLen + c.maxTag
  }

  function PacketLength(packet: seq<OutRecord>): nat
  {
    if packet == [] then 0 else PacketLength(packet[..|packet| - 1]) + packet[|packet| - 1].wireLen
  }

  function Logged(recs: seq<OutRecord>, accepted: bool): seq<Passed>
  {
    seq(|recs|, i requires 0 <= i < |recs| => Passed(recs[i], accepted))
  }

  /** Abstract record protection: it may fail, unless it `works`; what it returns fits the room it was given. */
  method SealRecord(c: Cipher, typ: ContentType, epoch: u16, payload: bytes, maxOut: nat, works: bool)
    returns (r: Option<OutRecord>)
    ensures r.Some? ==> r.value == OutRecord(typ, epoch, payload, r.value.wireLen) && r.value.wireLen <= maxOut
    ensures works && Overhead(c) + |payload| <= maxOut ==> r.Some?
  {
    var ok: bool := *;
    ok := ok || works;
    var tag: nat :| tag <= c.maxTag;
    var len := RECORD_HEADER_LENGTH + c.nonceLen + |payload| + tag;
    if ok && len <= maxOut {
      return Some(OutRecord(typ, epoch, payload, len));
    }
    return None;
  }

  class DtlsFlight {
    /** Whether neither record protection nor the transport ever refuses. */
    const willing: bool
    var messages: seq<OutMessage>
    var written: nat
    var offset: nat
    var complete: bool
    var writeEpoch: u16
    var writeSeq: u16
    var current: Cipher
    var previous: Cipher
    var mtu: nat

    ghost var log: seq<Passed>  // records the cursor has passed since the last rewind
    ghost var queued: seq<Sent> // every handshake message ever added
    ghost var ciphers: seq<Cipher> // the ciphers of all epochs so far

    ghost predicate Valid()
      reads this
    {
      |messages| <= MAX_FLIGHT && Tiles(messages, Records(log), Cursor(written, offset))
    }

    /** The flight is made of messages that were built for it, under consecutive numbers. */
    ghost predicate Genuine()
      reads this
    {
      Built(queued, messages, writeSeq)
    }

    /** The two ciphers at hand are those of the last two epochs. */
    ghost predicate Keyed()
      reads this
    {
      && ciphers != [] && writeEpoch == (|ciphers| - 1) % 0x1_0000 && current == ciphers[|ciphers| - 1]
      && (|ciphers| > 1 ==> previous == ciphers[|ciphers| - 2])
    }

    constructor (cipher: Cipher, willing: bool)
      ensures Valid() && Genuine() && Keyed() && messages == [] && queued == [] && ciphers == [cipher]
      ensures this.willing == willing
    {
      this.willing := willing;
      messages, written, offset, complete := [], 0, 0, false;
      writeEpoch, writeSeq := 0, 0;
      current, previous, mtu := cipher, cipher, 0;
      log, queued, ciphers := [], [], [cipher];
    }

    method ClearOutgoing()
      modifies this`messages, this`written, this`offset, this`complete, this`log
      ensures Valid() && messages == [] && !complete && log == []
    {
      messages, written, offset, complete := [], 0, 0, false;
      log := [];
    }

    /** A message joins the flight; the first one after a flush starts a new flight. */
    method AddOutgoing(data: bytes, isCcs: bool) returns (ok: bool)
      requires Valid()
      modifies this`messages, this`written, this`offset, this`complete, this`writeSeq, this`log
      ensures Valid() && !complete
      ensures ok == (old(complete) || |old(messages)| < MAX_FLIGHT)
      ensures messages == (if old(complete) then [] else old(messages))
                          + (if ok then [OutMessage(data, writeEpoch, isCcs)] else [])
      ensures log == (if old(complete) then [] else old(log))
      ensures writeSeq == if ok && !isCcs then (old(writeSeq) + 1) % 0x1_0000 else old(writeSeq)
    {
      if complete {
        // The flight before this one has been answered.
        ClearOutgoing();
      }
      if |messages| >= MAX_FLIGHT {
        assert messages + [] == messages;
        return false;
      }
      if !isCcs {
        writeSeq := (writeSeq + 1) % 0x1_0000;
      }
      TilesGrow(messages, Records(log), OutMessage(data, writeEpoch, isCcs));
      messages := messages + [OutMessage(data, writeEpoch, isCcs)];
      return true;
    }

    /** Builds a handshake message under the next number and adds it. */
    method AddMessage(typ: u8, body: bytes) returns (ok: bool)
      requires Valid() && Genuine() && |body| < 0x100_0000
      modifies this`messages, this`written, this`offset, this`complete, this`writeSeq, this`log, this`queued
      ensures Valid() && Genuine() && !complete
      ensures ok == (old(complete) || |old(messages)| < MAX_FLIGHT)
      ensures queued == if ok then old(queued) + [Sent(typ, body)] else old(queued)
      ensures messages == (if old(complete) then [] else old(messages))
                          + (if ok then [Outgoing(Sent(typ, body), old(writeSeq), writeEpoch)] else [])
    {
      ghost var kept := if complete then [] else messages;
      ghost var m := Outgoing(Sent(typ, body), writeSeq, writeEpoch);
      assert Built(queued, kept, writeSeq);
      BuiltGrows(queued, kept, Sent(typ, body), m, writeSeq);
      var data := FinishMessage(typ, writeSeq, body);
      ok := AddOutgoing(data, false);
      if ok {
        queued := queued + [Sent(typ, body)];
      }
      assert messages == if ok then kept + [m] else kept;
    }

    method AddChangeCipherSpec() returns (ok: bool)
      requires Valid() && Genuine()
      modifies this`messages, this`written, this`offset, this`complete, this`writeSeq, this`log
      ensures Valid() && Genuine() && !complete
      ensures ok == (old(complete) || |old(messages)| < MAX_FLIGHT)
      ensures messages == (if old(complete) then [] else old(messages))
                          + (if ok then [OutMessage([], writeEpoch, true)] else [])
    {
      ghost var kept := if complete then [] else messages;
      ghost var m := OutMessage([], writeEpoch, true);
      assert Built(queued, kept, writeSeq);
      BuiltPasses(queued, kept, m, writeSeq);
      ok := AddOutgoing([], true);
      assert messages == if ok then kept + [m] else kept;
    }

    /** A new write epoch; what is queued already keeps its own. */
    method ChangeCipher(cipher: Cipher)
      modifies this`writeEpoch, this`current, this`previous, this`ciphers
      ensures writeEpoch == (old(writeEpoch) + 1) % 0x1_0000 && current == cipher && previous == old(current)
      ensures ciphers == old(ciphers) + [cipher] && (old(Keyed()) ==> Keyed())
    {
      writeEpoch := (writeEpoch + 1) % 0x1_0000;
      previous, current := current, cipher;
      ciphers := ciphers + [cipher];
    }

    /** A message can be sealed while its epoch is the current one or the one before. */
    predicate EpochLive(m: OutMessage)
      reads this`writeEpoch
    {
      m.epoch == writeEpoch || (writeEpoch >= 1 && m.epoch == writeEpoch - 1)
    }

    function CipherFor(m: OutMessage): Cipher
      reads this`writeEpoch, this`current, this`previous
    {
      if writeEpoch >= 1 && m.epoch == writeEpoch - 1 then previous else current
    }

    /** The least room in which some progress on `m` is possible. */
    function RoomNeeded(m: OutMessage): nat
      reads this`writeEpoch, this`current, this`previous
    {
      (if m.isCcs then 1 else HM_HEADER_LENGTH + 1) + Overhead(CipherFor(m))
    }

    /** A message is sealed with the cipher of the epoch it was queued in, until the epoch counter wraps. */
    lemma SealedInItsEpoch(m: OutMessage)
      requires Keyed() && |ciphers| <= 0x1_0000 && EpochLive(m)
      ensures m.epoch < |ciphers| && CipherFor(m) == ciphers[m.epoch]
    {
    }

    /** Every message of the flight can be sealed, and the MTU has room for some progress on it. */
    ghost predicate Sendable()
      reads this`messages, this`writeEpoch, this`current, this`previous, this`mtu
    {
      forall m :: m in messages ==> EpochLive(m) && WellFormed(m) && RoomNeeded(m) <= mtu
    }

    /** The least MTU is enough for every cipher that adds no more than 202 bytes. */
    lemma LeastMtuSuffices()
      requires Genuine() && mtu >= 228 && (forall m :: m in messages ==> EpochLive(m))
      requires current.nonceLen + current.maxTag <= 202 && previous.nonceLen + previous.maxTag <= 202
      ensures Sendable()
    {
      forall m | m in messages ensures WellFormed(m) {
        if !m.isCcs {
          var k: nat :| IsQueued(queued, m, k);
          FinishedIsUnfragmented(queued[k].typ, k % 0x1_0000, queued[k].body, m.epoch);
        }
      }
    }

    /** One record of the message at the cursor, of at most `maxOut` bytes. */
    method SealNextMessage(maxOut: nat) returns (res: SealResult, rec: OutRecord)
      requires written < |messages| && (offset > 0 ==> offset < |BodyOf(messages[written])|)
      modifies this`offset
      ensures var m, c, c' := messages[written], Cursor(written, old(offset)), Cursor(written, offset);
        && (m.epoch != writeEpoch && m.epoch != writeEpoch - 1 ==> res == SealError)
        && (willing && EpochLive(m) && WellFormed(m) ==> res != SealError)
        && (res == SealNoProgress ==> maxOut < RoomNeeded(m))
        && (maxOut < RoomNeeded(m) ==> res == SealNoProgress || res == SealError)
        && match res
           case SealError => c' == c
           case SealNoProgress => c' == c
           case SealPartial =>
             && Step(m, c, rec) == Some(c') && rec.wireLen <= maxOut && offset > old(offset)
             && |BodyIn(rec)| == maxOut - HM_HEADER_LENGTH - Overhead(CipherFor(m))
           case SealSuccess => Step(m, c, rec) == Some(Cursor(written + 1, 0)) && rec.wireLen <= maxOut && offset == 0
    {
      var msg := messages[written];
      rec := OutRecord(Handshake, msg.epoch, [], 0);
      var cipher := current;
      if writeEpoch >= 1 && msg.epoch == writeEpoch - 1 {
        cipher := previous;
      } else if msg.epoch != writeEpoch {
        return SealError, rec;
      }
      var overhead := Overhead(cipher);

      if msg.isCcs {
        if maxOut < 1 + overhead {
          return SealNoProgress, rec;
        }
        var ccs := SealRecord(cipher, ChangeCipherSpec, msg.epoch, [1], maxOut, willing);
        if ccs.None? {
          return SealError, rec;
        }
        return SealSuccess, ccs.value;
      }

      var parsed := ParseFragment(msg.data);
      if parsed.None? || parsed.value.hdr.fragOff != 0 || parsed.value.hdr.msgLen != |parsed.value.body|
         || parsed.value.rest != [] || offset > |parsed.value.body| {
        return SealError, rec;
      }
      var f := parsed.value;

      res, rec := SealFragment(f, cipher, msg.epoch, maxOut);
      assert WellFormed(msg) && Whole(msg) == f && BodyOf(msg) == f.body;
    }

    /** Seals the next fragment of `f`, as long as fits. */
    method SealFragment(f: Fragment, cipher: Cipher, epoch: u16, maxOut: nat) returns (res: SealResult, rec: OutRecord)
      requires |f.body| < 0x100_0000 && offset <= |f.body| && (offset > 0 ==> offset < |f.body|)
      modifies this`offset
      ensures res == SealNoProgress <==> maxOut < HM_HEADER_LENGTH + 1 + Overhead(cipher)
      ensures willing ==> res != SealError
      ensures var c, c' := Cursor(written, old(offset)), Cursor(written, offset);
        match res
        case SealError => c' == c
        case SealNoProgress => c' == c
        case SealPartial =>
          && StepIn(f, c, rec) == Some(c') && rec.epoch == epoch && rec.wireLen <= maxOut && offset > old(offset)
          && |BodyIn(rec)| == maxOut - HM_HEADER_LENGTH - Overhead(cipher)
        case SealSuccess =>
          && StepIn(f, c, rec) == Some(Cursor(written + 1, 0)) && rec.epoch == epoch && rec.wireLen <= maxOut
            && offset == 0
    {
      rec := OutRecord(Handshake, epoch, [], 0);
      var overhead := Overhead(cipher);
      if maxOut < HM_HEADER_LENGTH + 1 + overhead {
        return SealNoProgress, rec;
      }
      var todo := |f.body| - offset;
      if todo > maxOut - HM_HEADER_LENGTH - overhead {
        todo := maxOut - HM_HEADER_LENGTH - overhead;
      }
      var frag := Slice(f, offset, todo);
      var sealed := SealRecord(cipher, Handshake, epoch, frag, maxOut, willing);
      if sealed.None? {
        return SealError, rec;
      }
      rec := sealed.value;
      if todo == |f.body| - offset {
        offset := 0;
        return SealSuccess, rec;
      }
      offset := offset + todo;
      return SealPartial, rec;
    }

    /** Seals the next record of a packet; `sent` is what the cursor has passed, this packet's records included. */
    method SealNext(maxOut: nat, ghost sent: seq<OutRecord>) returns (res: SealResult, rec: OutRecord)
      requires written < |messages| && Tiles(messages, sent, Cursor(written, offset))
      modifies this`offset, this`written
      ensures res == SealError || res == SealNoProgress ==> written == old(written) && offset == old(offset)
      ensures willing && Sendable() ==> res != SealError && (res == SealNoProgress ==> maxOut < mtu)
      ensures res == SealPartial ==> written == old(written) && offset > old(offset)
      ensures res == SealSuccess ==> written == old(written) + 1
      ensures res == SealPartial || res == SealSuccess ==>
        rec.wireLen <= maxOut && Tiles(messages, sent + [rec], Cursor(written, offset))
    {
      ghost var c := Cursor(written, offset);
      CursorBounds(messages, sent, c);
      res, rec := SealNextMessage(maxOut);
      if res == SealSuccess {
        written := written + 1;
      }
      if res == SealSuccess || res == SealPartial {
        TilesNext(messages, sent, c, rec, Cursor(written, offset));
      }
    }

    /**
     Fills one packet with records until the flight ends or nothing more fits. The records sealed
     continue the flight from the old cursor to the new one, whether the packet is good or given up.
     */
    method SealNextPacket(maxOut: nat, ghost sent: seq<OutRecord>)
      returns (ok: bool, packet: seq<OutRecord>, ghost all: seq<OutRecord>)
      requires written < |messages| && Tiles(messages, sent, Cursor(written, offset))
      modifies this`offset, this`written
      ensures all == sent + packet && Tiles(messages, all, Cursor(written, offset)) && written <= |messages|
      ensures ok ==> packet != []
      ensures willing && Sendable() && maxOut >= mtu ==> ok
      ensures PacketLength(packet) <= maxOut
      ensures packet != [] ==> written > old(written) || (written == old(written) && offset > old(offset))
      ensures packet == [] ==> written == old(written) && offset == old(offset)
    {
      packet, all := [], sent;
      var room, res: SealResult := maxOut, SealSuccess;
      while res == SealSuccess && written < |messages|
        invariant old(written) <= written <= |messages|
        invariant all == sent + packet && Tiles(messages, all, Cursor(written, offset))
        invariant 0 <= room && PacketLength(packet) + room == maxOut
        invariant if packet == [] then written == old(written) && offset == old(offset)
                  else written > old(written) || (written == old(written) && offset > old(offset) && res != SealSuccess)
        invariant willing && Sendable() ==> res != SealError
        invariant willing && Sendable() && maxOut >= mtu && packet == [] ==> res == SealSuccess
        decreases |messages| - written, res == SealSuccess
      {
        var rec;
        res, rec := SealNext(room, all);
        if res == SealPartial || res == SealSuccess {
          PacketGrows(packet, rec);
          assert sent + packet + [rec] == sent + (packet + [rec]);
          all, packet, room := all + [rec], packet + [rec], room - rec.wireLen;
        }
      }
      // Nothing sealed at all is a failure too.
      ok := res != SealError && packet != [];
    }

    /** What the transport makes of a packet. */
    method Transport() returns (ret: int)
      ensures willing ==> ret > 0
    {
      ret := *;
      if willing {
        ret := 1;
      }
    }

    /** The next packet; if it is given up, its records have been passed all the same. */
    method FillPacket() returns (ok: bool, packet: seq<OutRecord>)
      requires Valid() && written < |messages|
      modifies this`offset, this`written, this`log
      ensures written <= |messages| && PacketLength(packet) <= mtu && (ok ==> packet != [])
      ensures packet != [] ==> written > old(written) || (written == old(written) && offset > old(offset))
      ensures packet == [] ==> written == old(written) && offset == old(offset)
      ensures !ok ==> Valid() && log == old(log) + Logged(packet, false)
      ensures ok ==> log == old(log) && Tiles(messages, Records(log + Logged(packet, true)), Cursor(written, offset))
      ensures willing && Sendable() ==> ok
    {
      ghost var all;
      ok, packet, all := SealNextPacket(mtu, Records(log));
      RecordsLogged(log, packet, ok);
      if !ok {
        log := log + Logged(packet, false);
      }
    }

    /**
     One packet to the transport, which takes or refuses it as a whole. A refused packet is
     rewound; a packet given up for a failed seal is not, and its records are lost.
     */
    method SendPacket() returns (ret: int, packet: seq<OutRecord>, ghost lost: seq<OutRecord>)
      requires Valid() && written < |messages|
      modifies this`offset, this`written, this`log
      ensures Valid() && written <= |messages|
      ensures ret > 0 ==>
        && packet != [] && PacketLength(packet) <= mtu && lost == [] && log == old(log) + Logged(packet, true)
        && (written > old(written) || (written == old(written) && offset > old(offset)))
      ensures ret <= 0 ==> log == old(log) + Logged(lost, false)
      ensures ret <= 0 && lost == [] ==> written == old(written) && offset == old(offset)
      ensures willing && Sendable() ==> ret > 0
    {
      var oldWritten, oldOffset := written, offset;
      var ok;
      ok, packet := FillPacket();
      lost := [];
      if !ok {
        return -1, packet, packet;
      }
      ret := Transport();
      if ret <= 0 {
        written, offset := oldWritten, oldOffset;
        return;
      }
      log := log + Logged(packet, true);
    }

    /** The MTU is brought above the minimum before sending, unless querying is switched off. */
    method UpdateMtu(noQuery: bool, bioMtu: int)
      modifies this`mtu
      ensures mtu >= MIN_MTU <==> old(mtu) >= MIN_MTU || !noQuery
      ensures old(mtu) >= MIN_MTU || noQuery ==> mtu == old(mtu)
      ensures old(mtu) < MIN_MTU && !noQuery ==> mtu == if MIN_MTU <= bioMtu <= 0x4000_0000 then bioMtu else DEFAULT_MTU
    {
      if mtu < MIN_MTU && !noQuery {
        if bioMtu >= 0 && bioMtu <= 0x4000_0000 && bioMtu >= MIN_MTU {
          mtu := bioMtu;
        } else {
          mtu := DEFAULT_MTU;
        }
      }
    }

    /**
     What the transport accepted is the whole flight, cut without gap or overlap, unless a record went
     into a packet given up since the last rewind; then it is not.
     */
    ghost predicate WholeUnlessLost()
      reads this
    {
      && (Tiles(messages, AcceptedRecords(log), Cursor(|messages|, 0)) <==> NothingLost(log))
      && (NothingLost(log) ==> Carried(AcceptedRecords(log)) == Flatten(BodiesOf(messages)))
    }

    /**
     Sends the rest of the flight, packet by packet. `packets` are those the transport took and
     `lost` the records of the packet given up, if any.
     */
    method SendFlight(shutdown: bool, noQuery: bool, bioMtu: int)
      returns (ret: int, packets: seq<seq<OutRecord>>, ghost lost: seq<OutRecord>)
      requires Valid()
      modifies this`offset, this`written, this`log, this`mtu
      ensures Valid()
      ensures ret > 0 ==> written == |messages| && lost == []
      ensures ret > 0 ==> WholeUnlessLost()
      ensures forall p :: p in packets ==> p != [] && PacketLength(p) <= mtu
      ensures log == old(log) + Logged(FlattenPackets(packets), true) + Logged(lost, false)
      ensures shutdown ==> ret == -1 && packets == [] && lost == [] && mtu == old(mtu)
      ensures !shutdown && !noQuery ==> mtu >= MIN_MTU
      ensures willing && !shutdown && Sendable() ==> ret > 0
    {
      packets, lost, ret := [], [], -1;
      if shutdown {
        return;
      }
      UpdateMtu(noQuery, bioMtu);
      ret, packets, lost := SendPackets();
      if ret <= 0 {
        return;
      }
      WholeFlight();
      var flushed := Transport();
      ret := if flushed > 0 then 1 else -1;
    }

    /** The packets of what is left of the flight, until one is refused or given up. */
    method SendPackets() returns (ret: int, packets: seq<seq<OutRecord>>, ghost lost: seq<OutRecord>)
      requires Valid()
      modifies this`offset, this`written, this`log
      ensures Valid() && (ret > 0 ==> written == |messages| && lost == [])
      ensures forall p :: p in packets ==> p != [] && PacketLength(p) <= mtu
      ensures log == old(log) + Logged(FlattenPackets(packets), true) + Logged(lost, false)
      ensures willing && Sendable() ==> ret > 0
    {
      packets, lost, ret := [], [], 1;
      CursorInFlight();
      while written < |messages|
        invariant Valid() && written <= |messages| && lost == [] && ret > 0
        invariant forall p :: p in packets ==> p != [] && PacketLength(p) <= mtu
        invariant log == old(log) + Logged(FlattenPackets(packets), true)
        decreases |messages| - written, if written < |messages| then |BodyOf(messages[written])| - offset else 0
      {
        var packet;
        CursorInFlight();
        ret, packet, lost := SendPacket();
        CursorInFlight();
        if ret <= 0 {
          return;
        }
        LoggedFurther(old(log), packets, packet);
        packets := packets + [packet];
      }
    }

    lemma WholeFlight()
      requires Valid() && written == |messages|
      ensures WholeUnlessLost()
    {
      var c := Cursor(written, offset);
      AcceptedTilesIffNothingLost(messages, log, c);
      CursorInFlight();
      if NothingLost(log) {
        TilesCarryTheFlight(messages, AcceptedRecords(log), c);
        assert BodiesOf(messages)[..|messages|] == BodiesOf(messages);
      }
    }

    lemma CursorInFlight()
      requires Valid()
      ensures written <= |messages|
      ensures offset > 0 ==> written < |messages| && offset < |BodyOf(messages[written])|
    {
      CursorBounds(messages, Records(log), Cursor(written, offset));
    }

    /** Flushing closes the flight: the next message added starts a new one. */
    method FlushFlight(shutdown: bool, noQuery: bool, bioMtu: int)
      returns (ret: int, packets: seq<seq<OutRecord>>, ghost lost: seq<OutRecord>)
      requires Valid()
      modifies this`offset, this`written, this`log, this`complete, this`mtu
      ensures Valid() && complete
      ensures ret > 0 ==> written == |messages| && lost == []
      ensures ret > 0 ==> WholeUnlessLost()
      ensures forall p :: p in packets ==> p != [] && PacketLength(p) <= mtu
      ensures log == old(log) + Logged(FlattenPackets(packets), true) + Logged(lost, false)
      ensures willing && !shutdown && Sendable() ==> ret > 0
    {
      complete := true;
      ret, packets, lost := SendFlight(shutdown, noQuery, bioMtu);
    }

    /** A retransmission starts over from the first message: what it sends is the whole flight again. */
    method Retransmit(shutdown: bool, noQuery: bool, bioMtu: int)
      returns (ret: int, packets: seq<seq<OutRecord>>, ghost lost: seq<OutRecord>)
      requires Valid()
      modifies this`offset, this`written, this`log, this`mtu
      ensures Valid()
      ensures forall p :: p in packets ==> p != [] && PacketLength(p) <= mtu
      ensures log == Logged(FlattenPackets(packets), true) + Logged(lost, false)
      ensures ret > 0 ==> Carried(FlattenPackets(packets)) == Flatten(BodiesOf(messages))
      ensures willing && !shutdown && Sendable() ==> ret > 0
    {
      written, offset, log := 0, 0, [];
      ret, packets, lost := SendFlight(shutdown, noQuery, bioMtu);
      assert [] + Logged(FlattenPackets(packets), true) == Logged(FlattenPackets(packets), true);
      if ret > 0 {
        Resent(FlattenPackets(packets), lost);
      }
    }

    lemma Resent(recs: seq<OutRecord>, lost: seq<OutRecord>)
      requires Valid() && written == |messages| && lost == [] && log == Logged(recs, true) + Logged(lost, false)
      ensures Carried(recs) == Flatten(BodiesOf(messages))
    {
      RecordsOfLogged(recs, lost);
      TilesCarryTheFlight(messages, Records(log), Cursor(written, offset));
      assert BodiesOf(messages)[..|messages|] == BodiesOf(messages);
    }
  }

  function FlattenPackets(packets: seq<seq<OutRecord>>): seq<OutRecord>
  {
    if packets == [] then [] else FlattenPackets(packets[..|packets| - 1]) + packets[|packets| - 1]
  }

  lemma FlattenPacketsAppend(packets: seq<seq<OutRecord>>, p: seq<OutRecord>)
    ensures FlattenPackets(packets + [p]) == FlattenPackets(packets) + p
  {
    assert (packets + [p])[..|packets|] == packets;
  }

  lemma RecordsOfLogged(recs: seq<OutRecord>, lost: seq<OutRecord>)
    requires lost == []
    ensures Records(Logged(recs, true) + Logged(lost, false)) == recs
  {
  }

  lemma LoggedAppend(a: seq<OutRecord>, b: seq<OutRecord>)
    ensures Logged(a + b, true) == Logged(a, true) + Logged(b, true)
  {
  }

  /** One packet more, after whatever was logged at the start. */
  lemma LoggedFurther(start: seq<Passed>, packets: seq<seq<OutRecord>>, p: seq<OutRecord>)
    ensures start + Logged(FlattenPackets(packets), true) + Logged(p, true)
         == start + Logged(FlattenPackets(packets + [p]), true)
  {
    FlattenPacketsAppend(packets, p);
    LoggedAppend(FlattenPackets(packets), p);
  }

  lemma RecordsLogged(log: seq<Passed>, recs: seq<OutRecord>, accepted: bool)
    ensures Records(log + Logged(recs, accepted)) == Records(log) + recs
  {
  }

  lemma PacketGrows(packet: seq<OutRecord>, r: OutRecord)
    ensures PacketLength(packet + [r]) == PacketLength(packet) + r.wireLen
  {
    assert (packet + [r])[..|packet|] == packet;
  }
}
