/**
 The DTLS record layer: the sliding replay window on the reading side (RFC 6347, section
 4.1.2.6) and the two live sequence counters on the writing side.
 */
module DtlsRecord {
  import opened Wrappers
  import opened Bytes

  // ---------------------------------------------------------------------------------------
  // Replay window. A record number is 16 bits of epoch over 48 bits of counter.

  const WINDOW_SIZE := 64

  /** A 64-bit word as its bits, the lowest first. */
  type Word64 = w: seq<bool> | |w| == 64 witness seq(64, i => false)

  function Zero(): Word64
  {
    seq(64, i => false)
  }

  function ShiftLeft(w: Word64, n: nat): Word64
  {
    seq(64, i requires 0 <= i < 64 => i >= n && w[i - n])
  }

  datatype Window = Window(bits: Word64, maxSeq: u64)

  predicate ShouldDiscard(w: Window, s: u64)
  {
    s <= w.maxSeq && (w.maxSeq - s >= WINDOW_SIZE || w.bits[w.maxSeq - s])
  }

  /** The window after `s` is recorded: slid forward if `s` is a new maximum. */
  function Record(w: Window, s: u64): Window
  {
    var bits := if s <= w.maxSeq then w.bits
                else if s - w.maxSeq >= WINDOW_SIZE then Zero()
                else ShiftLeft(w.bits, s - w.maxSeq);
    var top := if s <= w.maxSeq then w.maxSeq else s;
    Window(if top - s < WINDOW_SIZE then bits[top - s := true] else bits, top)
  }

  /** The window stands for a set of numbers recorded in this epoch. */
  ghost predicate Represents(w: Window, seen: set<u64>)
  {
    && (forall s :: s in seen ==> s <= w.maxSeq)
    && (forall i :: 0 <= i < WINDOW_SIZE ==> (w.bits[i] <==> w.maxSeq - i in seen))
  }

  predicate Stale(w: Window, s: u64)
  {
    s <= w.maxSeq && w.maxSeq - s >= WINDOW_SIZE
  }

  lemma EmptyWindow()
    ensures Represents(Window(Zero(), 0), {})
  {
  }

  /** Replay is decided exactly: recorded before, or at least 64 below the highest number recorded. */
  lemma DiscardIsExact(w: Window, seen: set<u64>, s: u64)
    requires Represents(w, seen)
    ensures ShouldDiscard(w, s) <==> s in seen || Stale(w, s)
  {
    if s <= w.maxSeq && !Stale(w, s) {
      var i := w.maxSeq - s;
      assert w.bits[i] <==> w.maxSeq - i in seen;
    }
  }

  /** Recording adds exactly the number recorded, whether it slides the window or not. */
  lemma RecordRepresents(w: Window, seen: set<u64>, s: u64)
    requires Represents(w, seen)
    ensures Represents(Record(w, s), seen + {s})
  {
    var w' := Record(w, s);
    forall i | 0 <= i < WINDOW_SIZE
      ensures w'.bits[i] <==> w'.maxSeq - i in seen + {s}
    {
      if s > w.maxSeq {
        var shift := s - w.maxSeq;
        if i >= shift {
          assert w.bits[i - shift] <==> w.maxSeq - (i - shift) in seen;
        }
      }
    }
  }

  // ---------------------------------------------------------------------------------------
  // Reading records.

  /** What reaches the record layer: a number and whether the record is authentic under the current key. */
  datatype Arrival = Record_(seqNum: u64, authentic: bool, plainLen: nat) | CipherChange

  const MAX_PLAIN_LENGTH := 16384

  datatype Reader = Reader(epoch: u16, window: Window)

  datatype Verdict = Dropped | Overflow | Accepted

  function EpochOf(seqNum: u64): u16
  {
    seqNum / 0x1_0000_0000_0000
  }

  function Judge(r: Reader, seqNum: u64, authentic: bool, plainLen: nat): Verdict
  {
    if EpochOf(seqNum) != r.epoch || ShouldDiscard(r.window, seqNum) || !authentic then Dropped
    else if plainLen > MAX_PLAIN_LENGTH then Overflow
    else Accepted
  }

  function ReadStep(r: Reader, a: Arrival): Reader
  {
    match a
    case CipherChange => Reader((r.epoch + 1) % 0x1_0000, Window(Zero(), 0))
    case Record_(s, authentic, n) =>
      if Judge(r, s, authentic, n) == Accepted then r.(window := Record(r.window, s)) else r
  }

  /** The record numbers accepted over a whole run, in order. */
  function AcceptedNumbers(r: Reader, run: seq<Arrival>): seq<u64>
    decreases |run|
  {
    if run == [] then []
    else
      var rest := AcceptedNumbers(ReadStep(r, run[0]), run[1..]);
      if run[0].Record_? && Judge(r, run[0].seqNum, run[0].authentic, run[0].plainLen) == Accepted
      then [run[0].seqNum] + rest
      else rest
  }

  function EpochChanges(run: seq<Arrival>): nat
  {
    if run == [] then 0 else (if run[0].CipherChange? then 1 else 0) + EpochChanges(run[1..])
  }

  ghost predicate Distinct<T>(s: seq<T>)
  {
    forall i, j :: 0 <= i < j < |s| ==> s[i] != s[j]
  }

  /** The window knows every number accepted in this epoch; older ones belong to older epochs. */
  ghost predicate ReaderKnows(r: Reader, accepted: set<u64>)
  {
    && Represents(r.window, set s | s in accepted && EpochOf(s) == r.epoch)
    && forall s :: s in accepted ==> EpochOf(s) <= r.epoch
  }

  lemma ChangeKeepsKnowledge(r: Reader, accepted: set<u64>)
    requires ReaderKnows(r, accepted) && r.epoch < 0xffff
    ensures ReaderKnows(ReadStep(r, CipherChange), accepted)
  {
    assert (set s | s in accepted && EpochOf(s) == r.epoch + 1) == {};
    EmptyWindow();
  }

  lemma AcceptKeepsKnowledge(r: Reader, a: Arrival, accepted: set<u64>)
    requires ReaderKnows(r, accepted) && a.Record_? && Judge(r, a.seqNum, a.authentic, a.plainLen) == Accepted
    ensures a.seqNum !in accepted
    ensures ReaderKnows(ReadStep(r, a), accepted + {a.seqNum})
  {
    var mine := set s | s in accepted && EpochOf(s) == r.epoch;
    var more := accepted + {a.seqNum};
    assert (set s | s in more && EpochOf(s) == r.epoch) == mine + {a.seqNum};
    DiscardIsExact(r.window, mine, a.seqNum);
    RecordRepresents(r.window, mine, a.seqNum);
  }

  lemma {:induction false} NothingAcceptedAgain(r: Reader, run: seq<Arrival>, accepted: set<u64>)
    requires ReaderKnows(r, accepted) && r.epoch + EpochChanges(run) <= 0xffff
    ensures Distinct(AcceptedNumbers(r, run))
    ensures forall s :: s in AcceptedNumbers(r, run) ==> s !in accepted
    decreases |run|
  {
    if run != [] {
      var a, r' := run[0], ReadStep(r, run[0]);
      if a.CipherChange? {
        ChangeKeepsKnowledge(r, accepted);
        NothingAcceptedAgain(r', run[1..], accepted);
      } else if Judge(r, a.seqNum, a.authentic, a.plainLen) == Accepted {
        AcceptKeepsKnowledge(r, a, accepted);
        NothingAcceptedAgain(r', run[1..], accepted + {a.seqNum});
      } else {
        NothingAcceptedAgain(r', run[1..], accepted);
      }
    }
  }

  /**
   Over every run of records, authentic or not, in any order and with any repeats, no record
   number is accepted twice, unless the 16-bit read epoch wraps.
   */
  lemma NoReplay(run: seq<Arrival>)
    requires EpochChanges(run) <= 0xffff
    ensures Distinct(AcceptedNumbers(Reader(0, Window(Zero(), 0)), run))
  {
    EmptyWindow();
    var r := Reader(0, Window(Zero(), 0));
    assert (set s | s in {} && EpochOf(s) == r.epoch) == {};
    NothingAcceptedAgain(r, run, {});
  }

  /** The highest number recorded is one of this epoch's, if there is any. */
  ghost predicate TopAccepted(r: Reader, accepted: set<u64>)
  {
    r.window.maxSeq == 0 || (r.window.maxSeq in accepted && EpochOf(r.window.maxSeq) == r.epoch)
  }

  /** What the reader of an epoch has to let through, given all it has accepted. */
  ghost predicate Acceptable(epoch: nat, accepted: set<u64>, s: u64, authentic: bool, plainLen: nat)
  {
    && EpochOf(s) == epoch && authentic && plainLen <= MAX_PLAIN_LENGTH && s !in accepted
    && forall t :: t in accepted && EpochOf(t) == epoch ==> t < s + WINDOW_SIZE
  }

  lemma JudgedRight(r: Reader, accepted: set<u64>, s: u64, authentic: bool, plainLen: nat)
    requires ReaderKnows(r, accepted) && TopAccepted(r, accepted)
    ensures Judge(r, s, authentic, plainLen) == Accepted <==> Acceptable(r.epoch, accepted, s, authentic, plainLen)
  {
    var mine := set t | t in accepted && EpochOf(t) == r.epoch;
    DiscardIsExact(r.window, mine, s);
    if Stale(r.window, s) {
      assert r.window.maxSeq in mine;
    } else if EpochOf(s) == r.epoch {
      forall t | t in accepted && EpochOf(t) == r.epoch ensures t < s + WINDOW_SIZE {
        assert t in mine;
      }
    }
    assert EpochOf(s) == r.epoch ==> (s in mine <==> s in accepted);
  }

  function Elements(s: seq<u64>): set<u64>
  {
    set t | t in s
  }

  lemma OneMore(accepted: set<u64>, s: u64, rest: seq<u64>)
    ensures accepted + {s} + Elements(rest) == accepted + Elements([s] + rest)
  {
  }

  /** The numbers accepted once one more record has come. */
  ghost function Extended(r: Reader, run: seq<Arrival>, accepted: set<u64>, next: Arrival): (more: seq<u64>)
    requires next.Record_?
  {
    AcceptedNumbers(r, run) + if Acceptable(r.epoch + EpochChanges(run), accepted + Elements(AcceptedNumbers(r, run)),
                                            next.seqNum, next.authentic, next.plainLen) then [next.seqNum] else []
  }

  lemma AcceptsFirst(r: Reader, accepted: set<u64>, next: Arrival)
    requires ReaderKnows(r, accepted) && TopAccepted(r, accepted) && next.Record_?
    ensures AcceptedNumbers(r, [next]) == Extended(r, [], accepted, next)
  {
    assert [next][1..] == [] && accepted + Elements([]) == accepted;
    JudgedRight(r, accepted, next.seqNum, next.authentic, next.plainLen);
  }

  lemma ExtendedByOne(r: Reader, run: seq<Arrival>, accepted: set<u64>, next: Arrival)
    requires run != [] && run[0].Record_? && next.Record_?
    requires Judge(r, run[0].seqNum, run[0].authentic, run[0].plainLen) == Accepted
    ensures Extended(r, run, accepted, next) ==
      [run[0].seqNum] + Extended(ReadStep(r, run[0]), run[1..], accepted + {run[0].seqNum}, next)
  {
    OneMore(accepted, run[0].seqNum, AcceptedNumbers(ReadStep(r, run[0]), run[1..]));
  }

  lemma {:induction false} AcceptsAfter(r: Reader, run: seq<Arrival>, accepted: set<u64>, next: Arrival)
    requires ReaderKnows(r, accepted) && TopAccepted(r, accepted) && r.epoch + EpochChanges(run) <= 0xffff
    requires next.Record_?
    ensures AcceptedNumbers(r, run + [next]) == Extended(r, run, accepted, next)
    decreases |run|
  {
    if run == [] {
      assert run + [next] == [next];
      AcceptsFirst(r, accepted, next);
    } else {
      var a, r' := run[0], ReadStep(r, run[0]);
      assert (run + [next])[1..] == run[1..] + [next];
      if a.CipherChange? {
        ChangeKeepsKnowledge(r, accepted);
        AcceptsAfter(r', run[1..], accepted, next);
      } else if Judge(r, a.seqNum, a.authentic, a.plainLen) == Accepted {
        AcceptKeepsKnowledge(r, a, accepted);
        ExtendedByOne(r, run, accepted, next);
        AcceptsAfter(r', run[1..], accepted + {a.seqNum}, next);
      } else {
        AcceptsAfter(r', run[1..], accepted, next);
      }
    }
  }

  /**
   And nothing else is refused: after any run, a record is accepted exactly if it is of the current epoch,
   authentic and not too long, has not been accepted before, and is not 64 or more below one of its epoch
   that has.
   */
  lemma AcceptedExactly(run: seq<Arrival>, s: u64, authentic: bool, plainLen: nat)
    requires EpochChanges(run) <= 0xffff
    ensures var r := Reader(0, Window(Zero(), 0));
      var before := AcceptedNumbers(r, run);
      AcceptedNumbers(r, run + [Record_(s, authentic, plainLen)]) == before +
        if s / 0x1_0000_0000_0000 == EpochChanges(run) && authentic && plainLen <= 16384 && s !in before
          && forall t :: t in before && t / 0x1_0000_0000_0000 == EpochChanges(run) ==> t < s + 64
        then [s] else []
  {
    EmptyWindow();
    var r := Reader(0, Window(Zero(), 0));
    assert (set t | t in {} && EpochOf(t) == r.epoch) == {};
    AcceptsAfter(r, run, {}, Record_(s, authentic, plainLen));
    var before := AcceptedNumbers(r, run);
    assert {} + Elements(before) == Elements(before);
    assert forall t :: t in before <==> t in Elements(before);
    if forall t :: t in before && EpochOf(t) == EpochChanges(run) ==> t < s + 64 {
      forall t | t in Elements(before) && EpochOf(t) == EpochChanges(run) ensures t < s + WINDOW_SIZE {
      }
    } else {
      var t :| t in before && EpochOf(t) == EpochChanges(run) && t >= s + 64;
      assert t in Elements(before);
    }
  }

  function Changes(n: nat): (run: seq<Arrival>)
    ensures |run| == n
  {
    if n == 0 then [] else [CipherChange] + Changes(n - 1)
  }

  lemma {:induction false} ChangesCounted(n: nat, rest: seq<Arrival>)
    ensures EpochChanges(Changes(n) + rest) == n + EpochChanges(rest)
  {
    if n == 0 {
      assert Changes(0) + rest == rest;
    } else {
      assert (Changes(n) + rest)[1..] == Changes(n - 1) + rest;
      ChangesCounted(n - 1, rest);
    }
  }

  lemma {:induction false} ChangesForget(r: Reader, n: nat, rest: seq<Arrival>)
    requires n > 0 && r.epoch + n <= 0x1_0000
    ensures AcceptedNumbers(r, Changes(n) + rest) ==
            AcceptedNumbers(Reader((r.epoch + n) % 0x1_0000, Window(Zero(), 0)), rest)
    decreases n
  {
    var run := Changes(n) + rest;
    var r' := ReadStep(r, CipherChange);
    assert run[1..] == Changes(n - 1) + rest;
    if n == 1 {
      assert Changes(0) + rest == rest;
    } else {
      ChangesForget(r', n - 1, rest);
    }
  }

  function AroundAgain(seqNum: u64): seq<Arrival>
  {
    [Record_(seqNum, true, 0)] + (Changes(0x1_0000) + [Record_(seqNum, true, 0)])
  }

  /**
   The bound is needed: a run of 2^16 epoch changes, in which a record number of epoch 0 is accepted,
   and accepted again.
   */
  lemma WrapForgets(seqNum: u64)
    requires EpochOf(seqNum) == 0
    ensures EpochChanges(AroundAgain(seqNum)) == 0x1_0000
    ensures AcceptedNumbers(Reader(0, Window(Zero(), 0)), AroundAgain(seqNum)) == [seqNum, seqNum]
  {
    var r, again := Reader(0, Window(Zero(), 0)), [Record_(seqNum, true, 0)];
    var run := AroundAgain(seqNum);
    assert run[1..] == Changes(0x1_0000) + again;
    ChangesCounted(0x1_0000, again);
    assert again[1..] == [];
    ChangesForget(ReadStep(r, run[0]), 0x1_0000, again);
  }

  const RT_HEADER_LENGTH := 13
  const MAX_ENCRYPTED_LENGTH := 16384 + 64 + 256

  datatype RecordHeader = RecordHeader(typ: u8, version: u16, seqNum: u64, body: bytes, rest: bytes)

  function BigEndian(b: bytes): nat
  {
    if b == [] then 0 else BigEndian(b[..|b| - 1]) * 0x100 + b[|b| - 1]
  }

  lemma {:induction false} BigEndianBound(b: bytes)
    ensures BigEndian(b) < Pow256(|b|)
  {
    if b != [] {
      BigEndianBound(b[..|b| - 1]);
    }
  }

  function Pow256(n: nat): nat
  {
    if n == 0 then 1 else 0x100 * Pow256(n - 1)
  }

  lemma Pow256Of(n: nat)
    ensures n == 6 ==> Pow256(n) == 0x1_0000_0000_0000
    ensures n == 8 ==> Pow256(n) == 0x1_0000_0000_0000_0000
  {
    assert Pow256(1) == 0x100 && Pow256(2) == 0x1_0000 && Pow256(3) == 0x100_0000 && Pow256(4) == 0x1_0000_0000;
    assert Pow256(5) == 0x100_0000_0000 && Pow256(6) == 0x1_0000_0000_0000 && Pow256(7) == 0x100_0000_0000_0000;
  }

  /** The first record of a datagram, if its header is whole and its body fits. */
  function ParseRecord(input: bytes): (r: Option<RecordHeader>)
    ensures r.Some? ==> |r.value.rest| + |r.value.body| + RT_HEADER_LENGTH == |input|
  {
    if |input| < RT_HEADER_LENGTH then None else
    var n := DecodeU16(input[11..13]);
    if |input| < RT_HEADER_LENGTH + n || n > MAX_ENCRYPTED_LENGTH then None else
    BigEndianBound(input[3..11]);
    Pow256Of(8);
    Some(RecordHeader(input[0], DecodeU16(input[1..3]), BigEndian(input[3..11]), input[13..13 + n], input[13 + n..]))
  }

  lemma {:induction false} BigEndianJoin(a: bytes, b: bytes)
    ensures BigEndian(a + b) == BigEndian(a) * Pow256(|b|) + BigEndian(b)
    decreases |b|
  {
    if b == [] {
      assert a + b == a;
    } else {
      var init, last := b[..|b| - 1], b[|b| - 1];
      assert (a + b)[..|a + b| - 1] == a + init;
      BigEndianJoin(a, init);
      Shifted(BigEndian(a), Pow256(|init|), BigEndian(init));
    }
  }

  lemma Shifted(a: nat, p: nat, b: nat)
    ensures (a * p + b) * 0x100 == a * (0x100 * p) + b * 0x100
  {
    assert a * p * 0x100 == a * (0x100 * p);
  }

  lemma BigEndianPair(b: bytes)
    requires |b| == 2
    ensures BigEndian(b) == b[0] as int * 0x100 + b[1]
  {
    assert BigEndian(b[..1]) == BigEndian(b[..1][..0]) * 0x100 + b[0];
  }

  /** A record of the given fields, as its octets. */
  function RecordOctets(typ: u8, version: u16, epoch: u16, counter: bytes, body: bytes): bytes
    requires |body| < 0x1_0000
  {
    [typ] + EncodeU16(version) + EncodeU16(epoch) + counter + EncodeU16(|body|) + body
  }

  lemma OctetsAt(typ: u8, version: u16, epoch: u16, counter: bytes, body: bytes, rest: bytes)
    requires |counter| == 6 && |body| < 0x1_0000
    ensures var input := RecordOctets(typ, version, epoch, counter, body) + rest;
      && |input| == 13 + |body| + |rest| && input[0] == typ && input[1..3] == EncodeU16(version)
      && input[3..11] == EncodeU16(epoch) + counter && input[11..13] == EncodeU16(|body|)
      && input[13..13 + |body|] == body && input[13 + |body|..] == rest
  {
  }

  /** Whatever follows it, such a record parses to its fields, unless its body is longer than any may be. */
  lemma ParseInvertsOctets(typ: u8, version: u16, epoch: u16, counter: bytes, body: bytes, rest: bytes)
    requires |counter| == 6 && |body| < 0x1_0000
    ensures BigEndian(counter) < 0x1_0000_0000_0000
    ensures ParseRecord(RecordOctets(typ, version, epoch, counter, body) + rest) ==
      if |body| > 16384 + 64 + 256 then None
      else Some(RecordHeader(typ, version, epoch * 0x1_0000_0000_0000 + BigEndian(counter), body, rest))
  {
    OctetsAt(typ, version, epoch, counter, body, rest);
    BigEndianJoin(EncodeU16(epoch), counter);
    BigEndianPair(EncodeU16(epoch));
    BigEndianBound(counter);
    Pow256Of(6);
  }

  const RT_ALERT := 21
  const AL_WARNING := 1
  const AL_FATAL := 2
  const AD_CLOSE_NOTIFY := 0
  const MAX_WARNING_ALERTS := 4

  /** The alert that a fatal record is answered with, if there is one. */
  datatype Answer = RecordOverflow | DecodeError | UnexpectedMessage | IllegalParameter | NoAnswer

  datatype Opened =
    | Partial
    | CloseNotify(consumed: nat)
    | Discarded(consumed: nat)
    | Fatal(consumed: nat, answer: Answer)
    | Plaintext(consumed: nat, typ: u8, data: bytes)

  class DtlsReader {
    var epoch: u16
    var map_: Word64
    var maxSeq: u64
    /** Whether the peer has said that it will send no more. */
    var closed: bool
    /** Warnings since the last record that was none. */
    var warnings: nat

    function Model(): Reader
      reads this
    {
      Reader(epoch, Window(map_, maxSeq))
    }

    constructor ()
      ensures Model() == Reader(0, Window(Zero(), 0)) && !closed && warnings == 0
    {
      epoch, map_, maxSeq, closed, warnings := 0, Zero(), 0, false, 0;
    }

    method BitmapShouldDiscard(seqNum: u64) returns (discard: bool)
      ensures discard == ShouldDiscard(Model().window, seqNum)
    {
      if seqNum > maxSeq {
        return false;
      }
      var idx := maxSeq - seqNum;
      return idx >= WINDOW_SIZE || map_[idx];
    }

    method BitmapRecord(seqNum: u64)
      modifies this`map_, this`maxSeq
      ensures Model() == old(Model()).(window := Record(old(Model()).window, seqNum))
    {
      if seqNum > maxSeq {
        var shift := seqNum - maxSeq;
        if shift >= WINDOW_SIZE {
          map_ := Zero();
        } else {
          map_ := ShiftLeft(map_, shift);
        }
        maxSeq := seqNum;
      }
      var idx := maxSeq - seqNum;
      if idx < WINDOW_SIZE {
        map_ := map_[idx := true];
      }
    }

    /** An alert of the peer: its level and what it says. */
    method ProcessAlert(data: bytes, consumed: nat) returns (r: Opened)
      modifies this`closed, this`warnings
      ensures |data| != 2 ==> r == Fatal(consumed, DecodeError)
      ensures |data| == 2 && data[0] == 2 ==> r == Fatal(consumed, NoAnswer)
      ensures |data| == 2 && data[0] != 1 && data[0] != 2 ==> r == Fatal(consumed, IllegalParameter)
      ensures data == [1, 0] ==> r == CloseNotify(consumed) && closed && warnings == old(warnings)
      ensures data != [1, 0] ==> closed == old(closed)
      ensures |data| == 2 && data[0] == 1 && data[1] != 0 ==>
        warnings == old(warnings) + 1
        && r == if old(warnings) >= 4 then Fatal(consumed, UnexpectedMessage) else Discarded(consumed)
      ensures !(|data| == 2 && data[0] == 1 && data[1] != 0) ==> warnings == old(warnings)
    {
      if |data| != 2 {
        return Fatal(consumed, DecodeError);
      }
      var level, descr := data[0], data[1];
      if level == AL_WARNING {
        if descr == AD_CLOSE_NOTIFY {
          closed := true;
          return CloseNotify(consumed);
        }
        warnings := warnings + 1;
        if warnings > MAX_WARNING_ALERTS {
          return Fatal(consumed, UnexpectedMessage);
        }
        return Discarded(consumed);
      }
      if level == AL_FATAL {
        return Fatal(consumed, NoAnswer);
      }
      return Fatal(consumed, IllegalParameter);
    }

    /**
     One record off the front of a datagram. `plain` is what decryption makes of this record's
     body under the current key, or None if it is not authentic. Unless the peer has closed, some input is
     consumed whatever happens, so a datagram is worked off in finitely many steps; a malformed header
     gives up the whole datagram, a dropped record only itself.
     */
    method OpenRecord(nullCipher: bool, recordVersion: u16, input: bytes, plain: Option<bytes>) returns (r: Opened)
      modifies this
      ensures old(closed) ==> r == CloseNotify(0) && Model() == old(Model()) && closed && warnings == old(warnings)
      ensures !old(closed) ==> (input == [] <==> r == Partial) && (input != [] ==> 0 < r.consumed <= |input|)
      ensures var h := ParseRecord(input);
        var versionOk := h.Some? &&
          if nullCipher then h.value.version / 0x100 == 0xfe else h.value.version == recordVersion;
        if old(closed) || input == [] then Model() == old(Model())
        else if !versionOk then r == Discarded(|input|) && Model() == old(Model())
        else
          var n := if plain.Some? then |plain.value| else 0;
          && r.consumed == |input| - |h.value.rest|
          && Model() == ReadStep(old(Model()), Record_(h.value.seqNum, plain.Some?, n))
          && match Judge(old(Model()), h.value.seqNum, plain.Some?, n)
             case Dropped => r.Discarded? && closed == old(closed) && warnings == old(warnings)
             case Overflow => r == Fatal(r.consumed, RecordOverflow)
             case Accepted =>
               if h.value.typ != RT_ALERT then r == Plaintext(r.consumed, h.value.typ, plain.value) && warnings == 0
               else if plain.value == [AL_WARNING, AD_CLOSE_NOTIFY] then r.CloseNotify? && closed
               else r.Fatal? || (r.Discarded? && warnings == old(warnings) + 1 <= MAX_WARNING_ALERTS)
    {
      if closed {
        return CloseNotify(0);
      }
      if input == [] {
        return Partial;
      }
      var h := ParseRecord(input);
      if h.None? {
        return Discarded(|input|);
      }
      var hdr := h.value;
      var versionOk := if nullCipher then hdr.version / 0x100 == 0xfe else hdr.version == recordVersion;
      if !versionOk {
        return Discarded(|input|);
      }
      var consumed := |input| - |hdr.rest|;
      var discard := BitmapShouldDiscard(hdr.seqNum);
      if EpochOf(hdr.seqNum) != epoch || discard {
        return Discarded(consumed);
      }
      if plain.None? {
        return Discarded(consumed);
      }
      if |plain.value| > MAX_PLAIN_LENGTH {
        return Fatal(consumed, RecordOverflow);
      }
      BitmapRecord(hdr.seqNum);
      if hdr.typ == RT_ALERT {
        r := ProcessAlert(plain.value, consumed);
        return;
      }
      warnings := 0;
      return Plaintext(consumed, hdr.typ, plain.value);
    }

    method ChangeCipher()
      modifies this`epoch, this`map_, this`maxSeq
      ensures Model() == ReadStep(old(Model()), CipherChange)
    {
      epoch := (epoch + 1) % 0x1_0000;
      map_, maxSeq := Zero(), 0;
    }
  }
}
