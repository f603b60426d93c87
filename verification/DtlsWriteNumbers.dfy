/**
 Numbers on the DTLS records written. Two sequence counters are live at a time, the current
 epoch's and the previous one's, because a retransmitted flight may span a cipher change.
 */
module DtlsWriteNumbers {
  import opened Wrappers
  import opened Bytes
  import DtlsRecord

  const COUNTER_LIMIT := 0x1_0000_0000_0000

  datatype Writer = Writer(epoch: u16, current: nat, last: nat)

  datatype Number = Number(epoch: u16, counter: nat)

  /** `sealOk` and `fits` are what the AEAD makes of the record: it may refuse, or give too long a result. */
  datatype WriteEvent = Seal(previous: bool, sealOk: bool, fits: bool) | NewEpoch

  predicate WriterOk(w: Writer)
  {
    w.current < COUNTER_LIMIT && w.last < COUNTER_LIMIT
  }

  predicate Enabled(w: Writer, e: WriteEvent)
  {
    e.Seal? && e.previous ==> w.epoch >= 1
  }

  function CounterFor(w: Writer, previous: bool): nat
  {
    if previous then w.last else w.current
  }

  function NumberFor(w: Writer, previous: bool): Number
    requires previous ==> w.epoch >= 1
  {
    if previous then Number(w.epoch - 1, w.last) else Number(w.epoch, w.current)
  }

  function Bump(w: Writer, previous: bool): Writer
  {
    if previous then w.(last := (w.last + 1) % COUNTER_LIMIT) else w.(current := (w.current + 1) % COUNTER_LIMIT)
  }

  /** Whether the record goes out. Sealing at the last counter value fails, with the counter already back at 0. */
  predicate Emits(w: Writer, e: WriteEvent)
  {
    e.Seal? && e.sealOk && CounterFor(w, e.previous) + 1 < COUNTER_LIMIT && e.fits
  }

  function WriteStep(w: Writer, e: WriteEvent): Writer
  {
    match e
    case Seal(previous, sealOk, _) => if sealOk then Bump(w, previous) else w
    case NewEpoch => Writer((w.epoch + 1) % 0x1_0000, 0, w.current)
  }

  predicate AllEnabled(w: Writer, run: seq<WriteEvent>)
    decreases |run|
  {
    run == [] || (Enabled(w, run[0]) && AllEnabled(WriteStep(w, run[0]), run[1..]))
  }

  /** The numbers on the records that went out, in order. */
  function Written(w: Writer, run: seq<WriteEvent>): seq<Number>
    requires AllEnabled(w, run)
    decreases |run|
  {
    if run == [] then [] else
    var rest := Written(WriteStep(w, run[0]), run[1..]);
    if Emits(w, run[0]) then [NumberFor(w, run[0].previous)] + rest else rest
  }

  /** Neither a sequence counter nor the epoch reaches the end of its range. */
  predicate NeverWraps(w: Writer, run: seq<WriteEvent>)
    decreases |run|
  {
    run != [] ==>
      && (match run[0]
          case Seal(previous, sealOk, _) => sealOk ==> CounterFor(w, previous) + 1 < COUNTER_LIMIT
          case NewEpoch => w.epoch < 0xffff)
      && NeverWraps(WriteStep(w, run[0]), run[1..])
  }

  /** Every number used so far lies behind the counter of its epoch, or in an epoch that is closed. */
  ghost predicate Behind(w: Writer, used: set<Number>)
  {
    forall n :: n in used ==>
      n.epoch <= w.epoch && (n.epoch == w.epoch ==> n.counter < w.current)
      && (n.epoch + 1 == w.epoch ==> n.counter < w.last)
  }

  lemma {:induction false} NothingWrittenAgain(w: Writer, run: seq<WriteEvent>, used: set<Number>)
    requires WriterOk(w) && Behind(w, used) && AllEnabled(w, run) && NeverWraps(w, run)
    ensures DtlsRecord.Distinct(Written(w, run))
    ensures forall n :: n in Written(w, run) ==> n !in used
    decreases |run|
  {
    if run != [] {
      var e, w' := run[0], WriteStep(w, run[0]);
      var more := if Emits(w, e) then used + {NumberFor(w, e.previous)} else used;
      NothingWrittenAgain(w', run[1..], more);
    }
  }

  /**
   Over any interleaving of seals in the current epoch, seals in the previous one and epoch
   changes, the records that go out carry pairwise distinct numbers, as long as nothing wraps.
   */
  lemma NumbersAreUnique(run: seq<WriteEvent>)
    requires AllEnabled(Writer(0, 0, 0), run) && NeverWraps(Writer(0, 0, 0), run)
    ensures DtlsRecord.Distinct(Written(Writer(0, 0, 0), run))
  {
    NothingWrittenAgain(Writer(0, 0, 0), run, {});
  }

  /**
   The bound is needed: the seal that fails on the last counter value leaves the counter at 0, and the next
   one uses 0.
   */
  lemma CounterWrapReuses(w: Writer)
    requires w.current == COUNTER_LIMIT - 1
    ensures var s := Seal(false, true, true);
      AllEnabled(w, [s, s]) && Written(w, [s, s]) == [Number(w.epoch, 0)]
  {
    var s := Seal(false, true, true);
    assert [s, s][1..] == [s];
    var w1 := WriteStep(w, s);
    assert Written(w1, [s]) == [Number(w.epoch, 0)];
  }

  // ---------------------------------------------------------------------------------------

  /** Adds one to a big-endian counter in place; false, and all zeros, when it wraps. */
  method SequenceUpdate(a: array<u8>, lo: nat, hi: nat) returns (ok: bool)
    requires lo <= hi <= a.Length
    modifies a
    ensures a[..lo] == old(a[..lo]) && a[hi..] == old(a[hi..])
    ensures ok <==> DtlsRecord.BigEndian(old(a[lo..hi])) + 1 < DtlsRecord.Pow256(hi - lo)
    ensures DtlsRecord.BigEndian(a[lo..hi]) == if ok then DtlsRecord.BigEndian(old(a[lo..hi])) + 1 else 0
  {
    var i := hi;
    ghost var was := a[..];
    while i > lo
      invariant lo <= i <= hi
      invariant forall j :: 0 <= j < a.Length && !(i <= j < hi) ==> a[j] == was[j]
      invariant forall j :: i <= j < hi ==> a[j] == 0 && was[j] == 0xff
    {
      i := i - 1;
      a[i] := (a[i] as int + 1) % 0x100;
      if a[i] != 0 {
        CarriedWithin(was, a[..], lo, i, hi);
        return true;
      }
    }
    WrappedWithin(was, a[..], lo, hi);
    return false;
  }

  /** The carry stopped at `i`. */
  lemma CarriedWithin(was: bytes, now: bytes, lo: nat, i: nat, hi: nat)
    requires lo <= i < hi <= |was| == |now| && now[i] == was[i] as int + 1
    requires forall j :: 0 <= j < |was| && !(i <= j < hi) ==> now[j] == was[j]
    requires forall j :: i < j < hi ==> was[j] == 0xff && now[j] == 0
    ensures now[..lo] == was[..lo] && now[hi..] == was[hi..]
    ensures DtlsRecord.BigEndian(now[lo..hi]) == DtlsRecord.BigEndian(was[lo..hi]) + 1 < DtlsRecord.Pow256(hi - lo)
  {
    assert was[lo..hi][..i - lo] == now[lo..hi][..i - lo];
    Carried(was[lo..hi], now[lo..hi], i - lo);
  }

  lemma WrappedWithin(was: bytes, now: bytes, lo: nat, hi: nat)
    requires lo <= hi <= |was| == |now|
    requires forall j :: 0 <= j < |was| && !(lo <= j < hi) ==> now[j] == was[j]
    requires forall j :: lo <= j < hi ==> was[j] == 0xff && now[j] == 0
    ensures now[..lo] == was[..lo] && now[hi..] == was[hi..]
    ensures DtlsRecord.BigEndian(now[lo..hi]) == 0
      && DtlsRecord.BigEndian(was[lo..hi]) + 1 == DtlsRecord.Pow256(hi - lo)
  {
    AllOnes(was[lo..hi]);
    AllZeros(now[lo..hi]);
  }

  lemma {:induction false} Carried(was: bytes, now: bytes, i: nat)
    requires i < |was| == |now| && was[..i] == now[..i]
    requires now[i] == was[i] as int + 1
    requires forall j :: i < j < |was| ==> was[j] == 0xff && now[j] == 0
    ensures DtlsRecord.BigEndian(now) == DtlsRecord.BigEndian(was) + 1
    ensures DtlsRecord.BigEndian(now) < DtlsRecord.Pow256(|now|)
    decreases |was|
  {
    var k := |was| - 1;
    DtlsRecord.BigEndianBound(now);
    if i == k {
      assert was[..k] == now[..k];
    } else {
      assert was[..k][..i] == was[..i] && now[..k][..i] == now[..i];
      Carried(was[..k], now[..k], i);
    }
  }

  lemma {:induction false} AllOnes(b: bytes)
    requires forall j :: 0 <= j < |b| ==> b[j] == 0xff
    ensures DtlsRecord.BigEndian(b) + 1 == DtlsRecord.Pow256(|b|)
  {
    if b != [] {
      AllOnes(b[..|b| - 1]);
    }
  }

  lemma {:induction false} AllZeros(b: bytes)
    requires forall j :: 0 <= j < |b| ==> b[j] == 0
    ensures DtlsRecord.BigEndian(b) == 0
  {
    if b != [] {
      AllZeros(b[..|b| - 1]);
    }
  }

  /** Whatever follows `record`, the reader takes this type, version, number and body from it. */
  ghost predicate ReadsAs(record: bytes, typ: u8, version: u16, seqNum: u64, body: bytes)
  {
    forall rest: bytes :: DtlsRecord.ParseRecord(record + rest) ==
      if |body| > 16384 + 64 + 256 then None
      else Some(DtlsRecord.RecordHeader(typ, version, seqNum, body, rest))
  }

  lemma WrittenIsRead(typ: u8, version: u16, epoch: u16, counter: bytes, body: bytes)
    requires |counter| == 6 && |body| < 0x1_0000
    ensures var out, n := DtlsRecord.RecordOctets(typ, version, epoch, counter, body), DtlsRecord.BigEndian(counter);
      && |out| == 13 + |body| && out[0] == typ && out[1] as int * 0x100 + out[2] == version
      && out[3] as int * 0x100 + out[4] == epoch && out[5..11] == counter
      && out[11] as int * 0x100 + out[12] == |body| && out[13..] == body
      && n < COUNTER_LIMIT && ReadsAs(out, typ, version, epoch * COUNTER_LIMIT + n, body)
  {
    var out := DtlsRecord.RecordOctets(typ, version, epoch, counter, body);
    DtlsRecord.OctetsAt(typ, version, epoch, counter, body, []);
    assert out + [] == out;
    assert out[1] == out[1..3][0] && out[2] == out[1..3][1] && out[11] == out[11..13][0] && out[12] == out[11..13][1];
    assert out[3..11][..2] == EncodeU16(epoch) && out[3] == out[3..11][0] && out[4] == out[3..11][1];
    assert out[5..11] == out[3..11][2..];
    DtlsRecord.ParseInvertsOctets(typ, version, epoch, counter, body, []);
    var n := DtlsRecord.BigEndian(counter);
    forall rest: bytes ensures DtlsRecord.ParseRecord(out + rest) ==
      if |body| > 16384 + 64 + 256 then None
      else Some(DtlsRecord.RecordHeader(typ, version, epoch * COUNTER_LIMIT + n, body, rest))
    {
      DtlsRecord.ParseInvertsOctets(typ, version, epoch, counter, body, rest);
    }
  }

  class DtlsWriter {
    var epoch: u16
    const writeSequence: array<u8>
    const lastWriteSequence: array<u8>

    ghost predicate Valid()
      reads this, writeSequence, lastWriteSequence
    {
      && writeSequence.Length == 8 && lastWriteSequence.Length == 8 && writeSequence != lastWriteSequence
      && WriterOk(Model())
    }

    ghost function Model(): Writer
      reads this, writeSequence, lastWriteSequence
      requires writeSequence.Length == 8 && lastWriteSequence.Length == 8
    {
      Writer(epoch, DtlsRecord.BigEndian(writeSequence[2..8]), DtlsRecord.BigEndian(lastWriteSequence[2..8]))
    }

    constructor ()
      ensures Valid() && Model() == Writer(0, 0, 0) && fresh(writeSequence) && fresh(lastWriteSequence)
    {
      epoch := 0;
      writeSequence := new u8[8](_ => 0);
      lastWriteSequence := new u8[8](_ => 0);
      new;
      AllZeros(writeSequence[2..8]);
      AllZeros(lastWriteSequence[2..8]);
    }

    /** Adds one to the counter asked for; false when it wraps. */
    method BumpCounter(previous: bool) returns (ok: bool)
      requires Valid()
      modifies writeSequence, lastWriteSequence
      ensures Valid() && Model() == Bump(old(Model()), previous)
      ensures ok <==> CounterFor(old(Model()), previous) + 1 < COUNTER_LIMIT
    {
      DtlsRecord.Pow256Of(6);
      if previous {
        ok := SequenceUpdate(lastWriteSequence, 2, 8);
        DtlsRecord.BigEndianBound(lastWriteSequence[2..8]);
        assert writeSequence[..] == old(writeSequence[..]);
      } else {
        ok := SequenceUpdate(writeSequence, 2, 8);
        DtlsRecord.BigEndianBound(writeSequence[2..8]);
        assert lastWriteSequence[..] == old(lastWriteSequence[..]);
      }
    }

    /**
     Seals one record: `sealed` is what the AEAD returns, None if it refuses. The header written
     carries the type, the version, the epoch and the 48-bit counter of the epoch asked for.
     */
    method SealRecord(typ: u8, version: u16, previous: bool, sealed: Option<bytes>) returns (out: Option<bytes>)
      requires Valid() && (previous ==> epoch >= 1)
      modifies writeSequence, lastWriteSequence
      ensures Valid()
      ensures var e := Seal(previous, sealed.Some?, sealed.Some? && |sealed.value| < 0x1_0000);
        Model() == WriteStep(old(Model()), e) && out.Some? == Emits(old(Model()), e)
      ensures var number := if previous then old(Model()).last else old(Model()).current;
        var numberEpoch := if previous then epoch - 1 else epoch;
        && (out.Some? <==> sealed.Some? && |sealed.value| < 0x1_0000 && number + 1 < COUNTER_LIMIT)
        && (out.Some? ==>
              && |out.value| == 13 + |sealed.value| && out.value[0] == typ
              && out.value[1] as int * 0x100 + out.value[2] == version
              && out.value[3] as int * 0x100 + out.value[4] == numberEpoch
              && DtlsRecord.BigEndian(out.value[5..11]) == number
              && out.value[11] as int * 0x100 + out.value[12] == |sealed.value| && out.value[13..] == sealed.value
              && ReadsAs(out.value, typ, version, numberEpoch * COUNTER_LIMIT + number, sealed.value))
    {
      var recordEpoch := epoch;
      var seqBytes := writeSequence;
      if previous {
        recordEpoch := epoch - 1;
        seqBytes := lastWriteSequence;
      }
      var header := [typ] + EncodeU16(version) + EncodeU16(recordEpoch) + seqBytes[2..8];
      if sealed.None? {
        return None;
      }
      var ok := BumpCounter(previous);
      if !ok || |sealed.value| >= 0x1_0000 {
        return None;
      }
      WrittenIsRead(typ, version, recordEpoch, old(seqBytes[2..8]), sealed.value);
      return Some(header + EncodeU16(|sealed.value|) + sealed.value);
    }

    method SetWriteState()
      requires Valid()
      modifies this`epoch, writeSequence, lastWriteSequence
      ensures Valid() && Model() == WriteStep(old(Model()), NewEpoch)
    {
      ghost var current := writeSequence[2..8];
      epoch := (epoch + 1) % 0x1_0000;
      forall i | 0 <= i < 8 {
        lastWriteSequence[i] := writeSequence[i];
      }
      forall i | 0 <= i < 8 {
        writeSequence[i] := 0;
      }
      assert lastWriteSequence[2..8] == current;
      AllZeros(writeSequence[2..8]);
    }
  }
}
