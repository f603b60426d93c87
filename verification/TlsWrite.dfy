/**
 Writing application data over TLS: records of bounded size, sealed into a buffer that is flushed to
 a transport that may take part of it or block, with the call retried until it succeeds.
 */
module TlsWrite {
  import opened Wrappers
  import opened Bytes

  const MAX_PLAIN := 16384
  const MAX_CAP := 0xffff
  const ALIGN_PAYLOAD := 8

  /** What the transport takes leaves the buffer and has been sent. */
  lemma Taken(sent: bytes, contents: bytes, n: nat)
    requires n <= |contents|
    ensures sent + contents[..n] + contents[n..] == sent + contents
  {
  }

  /** From `before` to `after`, nothing was added but the next bytes of `data`. */
  predicate Onward(before: bytes, after: bytes, data: bytes)
  {
    after == before || (|before| <= |after| <= |data| && after == before + data[|before|..|after|])
  }

  lemma OnwardOnce(before: bytes, data: bytes, n: nat)
    requires |before| + n <= |data|
    ensures Onward(before, before + data[|before|..|before| + n], data)
  {
  }

  lemma OnwardFurther(a: bytes, b: bytes, c: bytes, data: bytes)
    requires Onward(a, b, data) && Onward(b, c, data)
    ensures Onward(a, c, data)
  {
    if b != a && c != b {
      assert data[|a|..|b|] + data[|b|..|c|] == data[|a|..|c|];
    }
  }

  /** What had been sealed of the same data, and what was added to it, is the beginning of that data. */
  lemma OnwardIsPrefix(before: bytes, after: bytes, data: bytes)
    requires Onward(before, after, data) && before <= data
    ensures before <= after <= data
  {
  }

  lemma Assoc(a: bytes, b: bytes, c: bytes)
    ensures (a + b) + c == a + (b + c)
  {
  }

  /** A window of `size` bytes at `offset` of an allocation, with room to grow to `cap`. */
  class SslBuffer {
    var buf: array<u8>
    var offset: nat
    var size: nat
    var cap: nat

    ghost predicate Valid()
      reads this
    {
      size <= cap <= MAX_CAP && offset + cap <= buf.Length
    }

    ghost function Contents(): (r: bytes)
      requires Valid()
      reads this, buf
      ensures |r| == size
    {
      buf[offset..offset + size]
    }

    constructor ()
      ensures Valid() && Contents() == [] && fresh(buf)
    {
      buf := new u8[0];
      offset, size, cap := 0, 0, 0;
    }

    method Clear()
      requires Valid()
      modifies this
      ensures Valid() && Contents() == [] && fresh(buf)
    {
      buf := new u8[0];
      offset, size, cap := 0, 0, 0;
    }

    /** Room for `newCap` bytes in all, the contents kept; the offset depends on the address allocated. */
    method EnsureCap(newCap: nat) returns (ok: bool)
      requires Valid()
      modifies this
      ensures Valid() && Contents() == old(Contents())
      ensures ok <==> newCap <= MAX_CAP
      ensures ok ==> cap >= newCap
      ensures buf == old(buf) || fresh(buf)
    {
      if newCap > MAX_CAP {
        return false;
      }
      if cap >= newCap {
        return true;
      }
      var newBuf := new u8[newCap + ALIGN_PAYLOAD - 1];
      var newOffset: nat := *;
      newOffset := newOffset % ALIGN_PAYLOAD;
      forall i | 0 <= i < size {
        newBuf[newOffset + i] := buf[offset + i];
      }
      buf, offset, cap := newBuf, newOffset, newCap;
      return true;
    }

    /** Bytes copied behind the contents, and counted as written. */
    method Append(b: bytes)
      requires Valid() && size + |b| <= cap
      modifies this`size, buf
      ensures Valid() && Contents() == old(Contents()) + b
    {
      forall i | 0 <= i < |b| {
        buf[offset + size + i] := b[i];
      }
      size := size + |b|;
    }

    method Consume(len: nat)
      requires Valid() && len <= size
      modifies this`offset, this`size, this`cap
      ensures Valid() && Contents() == old(Contents())[len..]
    {
      offset, size, cap := offset + len, size - len, cap - len;
    }
  }

  // ---------------------------------------------------------------------------------------

  /** What has gone into the write buffer: handshake data left over, or a record and its plaintext. */
  datatype Item = Flight(wire: bytes) | Record(plain: bytes, wire: bytes)

  function Wires(items: seq<Item>): bytes
  {
    if items == [] then [] else Wires(items[..|items| - 1]) + items[|items| - 1].wire
  }

  function Plains(items: seq<Item>): bytes
  {
    if items == [] then [] else
    var last := items[|items| - 1];
    Plains(items[..|items| - 1]) + if last.Record? then last.plain else []
  }

  function Flights(items: seq<Item>): bytes
  {
    if items == [] then [] else
    var last := items[|items| - 1];
    Flights(items[..|items| - 1]) + if last.Flight? then last.wire else []
  }

  predicate RecordsFit(items: seq<Item>, limit: nat)
  {
    items == [] ||
    var last := items[|items| - 1];
    RecordsFit(items[..|items| - 1], limit) && (last.Record? ==> 0 < |last.plain| <= limit)
  }

  lemma OneMore(items: seq<Item>, item: Item, limit: nat)
    ensures Wires(items + [item]) == Wires(items) + item.wire
    ensures Plains(items + [item]) == Plains(items) + if item.Record? then item.plain else []
    ensures Flights(items + [item]) == Flights(items) + if item.Flight? then item.wire else []
    ensures RecordsFit(items + [item], limit) <==>
            RecordsFit(items, limit) && (item.Record? ==> 0 < |item.plain| <= limit)
  {
    assert (items + [item])[..|items|] == items;
  }

  lemma {:induction false} RecordFits(items: seq<Item>, limit: nat, i: nat)
    requires RecordsFit(items, limit) && i < |items| && items[i].Record?
    ensures 0 < |items[i].plain| <= limit
  {
    if i < |items| - 1 {
      RecordFits(items[..|items| - 1], limit, i);
    }
  }

  datatype Account = BufferKept | AllReported | HandshakeKept | SizesKept

  class TlsWriter {
    const wbuf: SslBuffer
    const maxSendFragment: nat
    const maxSealOverhead: nat
    const partialWrite: bool
    const movingBuffer: bool
    const maxEarlyData: nat
    /** Whether neither sealing nor the transport ever refuses. */
    const willing: bool

    var writeShutdown: bool
    var inEarlyData: bool
    var canEarlyWrite: bool
    var earlyWritten: nat
    /** How much of the caller's buffer earlier calls have dealt with. */
    var wnum: nat
    var pending: bool
    var pendTotal: nat
    var pendAddress: nat
    var pendReturn: nat
    var pendingFlight: Option<bytes>
    var pendingFlightOffset: nat

    /** The handshake data that has been left with the writer. */
    ghost var handshake: bytes
    /** All that has been queued, what of it the transport has taken, and what callers were told of. */
    ghost var items: seq<Item>
    ghost var sent: bytes
    ghost var reported: bytes
    /** Sealed, but not yet reported to the caller; the last record of it may still be in the buffer. */
    ghost var partial: bytes
    /** Where the caller's buffer lay when the record that is pending was sealed. */
    ghost var base: nat

    /** Handshake data that has not gone into the buffer yet. */
    function Unflushed(): bytes
      reads this`pendingFlight, this`pendingFlightOffset
    {
      if pendingFlight.Some? && pendingFlightOffset <= |pendingFlight.value|
      then pendingFlight.value[pendingFlightOffset..] else []
    }

    /** Nothing queued is lost or doubled: not on the way out, nor in what is reported, nor of the handshake. */
    ghost predicate Balanced(a: Account)
      reads this`pendingFlight, this`pendingFlightOffset, this`items, this`sent, this`reported, this`partial
      reads this`handshake, wbuf, wbuf.buf
    {
      match a
      case BufferKept => wbuf.Valid() && Wires(items) == sent + wbuf.Contents()
      case AllReported => Plains(items) == reported + partial
      case HandshakeKept =>
        && (pendingFlight.Some? ==> pendingFlightOffset <= |pendingFlight.value|)
        && Flights(items) + Unflushed() == handshake
      case SizesKept => RecordsFit(items, maxSendFragment)
    }

    /** The accounts of what has been queued. */
    ghost predicate Accounts()
      reads this`pendingFlight, this`pendingFlightOffset, this`items, this`sent, this`reported, this`partial
      reads this`handshake, wbuf, wbuf.buf
    {
      wbuf.Valid() && forall a: Account :: Balanced(a)
    }

    lemma AccountsInFull()
      requires Accounts()
      ensures Wires(items) == sent + wbuf.Contents() && Plains(items) == reported + partial
      ensures Flights(items) + Unflushed() == handshake && RecordsFit(items, maxSendFragment)
      ensures pendingFlight.Some? ==> pendingFlightOffset <= |pendingFlight.value|
    {
      assert Balanced(BufferKept) && Balanced(AllReported) && Balanced(HandshakeKept) && Balanced(SizesKept);
    }

    lemma InBalance()
      requires wbuf.Valid() && Wires(items) == sent + wbuf.Contents() && Plains(items) == reported + partial
      requires Flights(items) + Unflushed() == handshake && RecordsFit(items, maxSendFragment)
      requires pendingFlight.Some? ==> pendingFlightOffset <= |pendingFlight.value|
      ensures Accounts()
    {
      forall a: Account ensures Balanced(a) {
      }
    }

    /** Nothing but the data of the caller and its timing stands in the way: there is room, and nothing left over. */
    ghost predicate Clear()
      reads this`pendingFlight, this`pendingFlightOffset, this`pending, wbuf
    {
      willing && (pending || wbuf.size == 0) && maxSendFragment + maxSealOverhead + |Unflushed()| <= MAX_CAP
    }

    /** With `done` bytes of the caller's buffer dealt with. */
    ghost predicate Consistent(done: nat)
      reads this`earlyWritten, this`pending, this`pendTotal, this`pendReturn
      reads this`pendingFlight, this`pendingFlightOffset, this`handshake
      reads this`items, this`sent, this`reported, this`partial, this`pendAddress, this`base, wbuf, wbuf.buf
    {
      && Accounts() && 0 < maxSendFragment <= MAX_PLAIN && earlyWritten <= maxEarlyData
      && (!pending ==> |partial| == done)
      && (pending ==>
            && maxSendFragment >= pendTotal == pendReturn > 0 && |partial| == done + pendTotal
            && pendAddress == base + done)
    }

    ghost predicate Valid()
      reads this, wbuf, wbuf.buf
    {
      Consistent(wnum)
    }

    constructor (maxSendFragment: nat, maxSealOverhead: nat, partialWrite: bool, movingBuffer: bool, maxEarlyData: nat,
                 willing: bool)
      requires 0 < maxSendFragment <= MAX_PLAIN
      ensures Valid() && reported == [] && sent == [] && partial == [] && handshake == [] && this.willing == willing
      ensures fresh(wbuf) && fresh(wbuf.buf)
    {
      wbuf := new SslBuffer();
      this.maxSendFragment, this.maxSealOverhead := maxSendFragment, maxSealOverhead;
      this.partialWrite, this.movingBuffer, this.maxEarlyData := partialWrite, movingBuffer, maxEarlyData;
      this.willing := willing;
      writeShutdown, inEarlyData, canEarlyWrite, earlyWritten := false, false, false, 0;
      wnum, pending, pendTotal, pendAddress, pendReturn := 0, false, 0, 0, 0;
      pendingFlight, pendingFlightOffset := None, 0;
      items, sent, reported, partial, base, handshake := [], [], [], [], 0, [];
    }

    /** A handshake record is left to be sent ahead of the next application data. */
    method AddToFlight(record: bytes)
      requires Valid() && pendingFlightOffset == 0
      modifies this`pendingFlight, this`handshake
      ensures Valid() && Unflushed() == old(Unflushed()) + record && handshake == old(handshake) + record
    {
      AccountsInFull();
      Assoc(Flights(items), Unflushed(), record);
      pendingFlight := Some(if pendingFlight.Some? then pendingFlight.value + record else record);
      handshake := handshake + record;
      forall a: Account ensures Balanced(a) {
        assert old(Balanced(a));
      }
    }

    /** Writes out the buffer, as far as the transport will take it. */
    method Flush() returns (ret: int)
      requires wbuf.Valid()
      modifies this`sent, wbuf
      ensures wbuf.Valid() && sent + wbuf.Contents() == old(sent + wbuf.Contents())
      ensures ret > 0 <==> wbuf.Contents() == []
      ensures willing ==> ret > 0
      ensures ret <= 0 || ret == 1
      ensures wbuf.buf == old(wbuf.buf) || fresh(wbuf.buf)
    {
      while wbuf.size != 0
        invariant wbuf.Valid() && wbuf.buf == old(wbuf.buf)
        invariant sent + wbuf.Contents() == old(sent + wbuf.Contents())
        decreases wbuf.size
      {
        // What the transport makes of the bytes is up to it.
        var taken: int := *;
        if willing {
          taken := wbuf.size;
        }
        if taken <= 0 || taken > wbuf.size {
          return -1;
        }
        Taken(sent, wbuf.Contents(), taken);
        sent := sent + wbuf.Contents()[..taken];
        wbuf.Consume(taken);
      }
      wbuf.Clear();
      return 1;
    }

    /** Finishes the record in the buffer, if the caller comes back with the same data. */
    method WritePending(address: nat, len: nat, ghost done: nat) returns (ret: int)
      requires Consistent(done) && pending
      modifies this`sent, this`pending, wbuf
      ensures (pending || Consistent(done + pendTotal)) && (!pending || Consistent(done))
      ensures ret > 0 <==> !pending
      ensures ret > 0 ==> ret == pendTotal <= len && (movingBuffer || pendAddress == address) && wbuf.size == 0
      ensures willing && pendTotal <= len && (movingBuffer || pendAddress == address) ==> ret > 0
      ensures pendTotal > len ==> ret == -1
      ensures wbuf.buf == old(wbuf.buf) || fresh(wbuf.buf)
    {
      if pendTotal > len || (!movingBuffer && pendAddress != address) {
        return -1;
      }
      ret := Flush();
      forall a: Account ensures Balanced(a) {
        assert old(Balanced(a));
      }
      if ret <= 0 {
        return ret;
      }
      pending := false;
      return pendReturn;
    }

    /** Bytes go into the buffer, which has room for them. */
    method Queue(wire: bytes, ghost item: Item)
      requires wbuf.Valid() && Wires(items) == sent + wbuf.Contents() && RecordsFit(items, maxSendFragment)
      requires wbuf.size + |wire| <= wbuf.cap && item.wire == wire
      requires item.Record? ==> 0 < |item.plain| <= maxSendFragment
      modifies this`items, wbuf`size, wbuf.buf
      ensures wbuf.Valid() && Wires(items) == sent + wbuf.Contents() && RecordsFit(items, maxSendFragment)
      ensures items == old(items) + [item] && wbuf.size == old(wbuf.size) + |wire|
      ensures Plains(items) == if item.Record? then Plains(old(items)) + item.plain else Plains(old(items))
      ensures Flights(items) == if item.Flight? then Flights(old(items)) + item.wire else Flights(old(items))
    {
      OneMore(items, item, maxSendFragment);
      Assoc(sent, wbuf.Contents(), wire);
      assert Plains(items) + [] == Plains(items) && Flights(items) + [] == Flights(items);
      wbuf.Append(wire);
      items := items + [item];
    }

    /** All unflushed handshake data goes into the buffer. */
    method QueueFlight()
      requires Accounts() && wbuf.size + |Unflushed()| <= wbuf.cap
      modifies this`pendingFlight, this`pendingFlightOffset, this`items, wbuf`size, wbuf.buf
      ensures Accounts() && Unflushed() == [] && wbuf.size == old(wbuf.size) + |old(Unflushed())|
      ensures items == old(items) + if old(pendingFlight).Some? then [Flight(old(Unflushed()))] else []
    {
      AccountsInFull();
      if pendingFlight.Some? {
        var flight := pendingFlight.value[pendingFlightOffset..];
        Assoc(Flights(items), flight, []);
        Queue(flight, Flight(flight));
        pendingFlight, pendingFlightOffset := None, 0;
      }
      InBalance();
    }

    /** Any unflushed handshake data goes first, then the record. */
    method QueueRecord(plain: bytes) returns (ok: bool, ghost wire: bytes)
      requires Accounts() && wbuf.size == 0 && 0 < |plain| <= maxSendFragment
      modifies this`pendingFlight, this`pendingFlightOffset, this`items, this`partial, wbuf, wbuf.buf
      ensures Accounts() && partial == old(partial) + if ok then plain else []
      ensures ok ==>
        items == old(items) + (if old(pendingFlight).Some? then [Flight(old(Unflushed()))] else [])
                 + [Record(plain, wire)]
      ensures ok ==> Unflushed() == []
      ensures willing && |plain| + maxSealOverhead + |old(Unflushed())| <= MAX_CAP ==> ok
      ensures wbuf.buf == old(wbuf.buf) || fresh(wbuf.buf)
    {
      var maxOut := |plain| + maxSealOverhead + |Unflushed()|;
      var room := wbuf.EnsureCap(maxOut);
      forall a: Account ensures Balanced(a) {
        assert old(Balanced(a));
      }
      if !room {
        return false, [];
      }
      QueueFlight();
      ok, wire := SealAndQueue(plain);
    }

    /** What sealing makes of a plaintext. */
    method SealText(plain: bytes) returns (ok: bool, wire: bytes)
      ensures ok ==> |wire| <= |plain| + maxSealOverhead
      ensures willing ==> ok
    {
      var limit := |plain| + maxSealOverhead;
      var sealed: bool := *;
      wire := *;
      if willing && |wire| > limit {
        wire := wire[..limit];
      }
      ok := (sealed || willing) && |wire| <= limit;
    }

    /** A plaintext that has been sealed is yet to be reported. */
    ghost method Enter(plain: bytes)
      requires wbuf.Valid() && Wires(items) == sent + wbuf.Contents() && Plains(items) == reported + partial + plain
      requires Flights(items) + Unflushed() == handshake && RecordsFit(items, maxSendFragment)
      requires pendingFlight.Some? ==> pendingFlightOffset <= |pendingFlight.value|
      modifies this`partial
      ensures Accounts() && partial == old(partial) + plain
    {
      Assoc(reported, partial, plain);
      partial := partial + plain;
      InBalance();
    }

    /** The record itself, into the room that is left. */
    method SealAndQueue(plain: bytes) returns (ok: bool, ghost wire: bytes)
      requires Accounts() && 0 < |plain| <= maxSendFragment && wbuf.size + |plain| + maxSealOverhead <= wbuf.cap
      modifies this`items, this`partial, wbuf`size, wbuf.buf
      ensures Accounts() && partial == old(partial) + if ok then plain else []
      ensures ok ==> items == old(items) + [Record(plain, wire)]
      ensures willing ==> ok
    {
      var sealed;
      ok, sealed := SealText(plain);
      wire := sealed;
      if !ok {
        return;
      }
      AccountsInFull();
      Queue(sealed, Record(plain, sealed));
      Enter(plain);
    }

    /** One record of application data; or the rest of the one before, which must be the same data. */
    method DoWrite(data: bytes, address: nat, ghost done: nat) returns (ret: int)
      requires Consistent(done) && |data| <= maxSendFragment && address >= done
      modifies this`pendingFlight, this`pendingFlightOffset, this`items, this`sent, this`partial, this`pending,
               this`pendTotal, this`pendAddress, this`pendReturn, this`base, wbuf, wbuf.buf
      ensures (ret <= 0 || Consistent(done + ret)) && (ret > 0 || Consistent(done))
      ensures ret > 0 ==> !pending && ret <= |data|
      ensures partial == old(partial) || (!old(pending) && partial == old(partial) + data && |data| > 0)
      ensures old(pending) ==> partial == old(partial) && (ret > 0 ==> movingBuffer || old(pendAddress) == address)
      ensures old(pending) && old(pendTotal) > |data| ==> ret == -1 && pending
      ensures old(Clear()) && |data| > 0
        && (old(pending) ==> old(pendTotal) <= |data| && (movingBuffer || old(pendAddress) == address))
        ==> ret > 0
      ensures ret > 0 && old(Clear()) ==> Clear()
      ensures ret > 0 && !old(pending) ==> ret == |data| && partial == old(partial) + data
      ensures wbuf.buf == old(wbuf.buf) || fresh(wbuf.buf)
    {
      if pending {
        ret := WritePending(address, |data|, done);
        return;
      }
      if |data| > MAX_PLAIN || wbuf.size > 0 {
        return -1;
      }
      if |data| == 0 {
        return 0;
      }
      var begun := BeginWrite(data, address, done);
      if !begun {
        return -1;
      }
      ret := WritePending(address, |data|, done);
    }

    /** A new record is queued, and what it takes to know its retries is kept. */
    method BeginWrite(data: bytes, address: nat, ghost done: nat) returns (ok: bool)
      requires Consistent(done) && !pending && wbuf.size == 0 && 0 < |data| <= maxSendFragment && address >= done
      modifies this`pendingFlight, this`pendingFlightOffset, this`items, this`partial, this`pending,
               this`pendTotal, this`pendAddress, this`pendReturn, this`base, wbuf, wbuf.buf
      ensures Consistent(done) && pending == ok && partial == old(partial) + if ok then data else []
      ensures ok ==> pendTotal == |data| && pendAddress == address
      ensures old(Clear()) ==> ok && Unflushed() == []
      ensures wbuf.buf == old(wbuf.buf) || fresh(wbuf.buf)
    {
      ghost var wire;
      ok, wire := QueueRecord(data);
      if ok {
        pendTotal, pendAddress, pendReturn, pending := |data|, address, |data|, true;
        base := address - done;
      }
    }

    /** The next record of the caller's buffer, as large as a fragment and the early-data allowance let it be. */
    method WriteRecord(data: bytes, tot: nat, address: nat, early: bool) returns (exhausted: bool, ret: int)
      requires Consistent(tot) && tot <= |data|
      modifies this`pendingFlight, this`pendingFlightOffset, this`items, this`sent, this`partial, this`pending,
               this`pendTotal, this`pendAddress, this`pendReturn, this`base, this`earlyWritten, wbuf, wbuf.buf
      ensures Onward(old(partial), partial, data)
      ensures Consistent(if ret > 0 then tot + ret else tot)
      ensures ret > 0 ==> !pending && ret <= |data| - tot
      ensures old(pending) && ret > 0 ==> movingBuffer || old(pendAddress) == address + tot
      ensures old(pending) && |data| < |old(partial)| ==> ret == -1 && partial == old(partial)
      ensures exhausted <==> early && old(earlyWritten) == maxEarlyData
      ensures exhausted ==> ret == -1
      ensures earlyWritten == old(earlyWritten) + if early && ret > 0 then ret else 0
      ensures old(Clear()) && !early && tot < |data|
        && (old(pending) ==> |old(partial)| <= |data| && (movingBuffer || old(pendAddress) == address + tot))
        ==> ret > 0
      ensures ret > 0 && old(Clear()) ==> Clear()
      ensures ret > 0 && !old(pending) && !early ==>
        ret == if |data| - tot > maxSendFragment then maxSendFragment else |data| - tot
      ensures wbuf.buf == old(wbuf.buf) || fresh(wbuf.buf)
    {
      // A record takes a fragment at most, and of early data what is still allowed.
      var max := maxSendFragment;
      if early && max > maxEarlyData - earlyWritten {
        max := maxEarlyData - earlyWritten;
        if max == 0 {
          return true, -1;
        }
      }
      var nw := if |data| - tot > max then max else |data| - tot;
      if !pending {
        OnwardOnce(partial, data, nw);
      }
      ret := DoWrite(data[tot..tot + nw], address + tot, tot);
      exhausted := false;
      if early && ret > 0 {
        earlyWritten := earlyWritten + ret;
      }
    }

    /** One record more, or the place where to go on the next time. */
    method WriteNext(data: bytes, tot: nat, address: nat, early: bool, ghost origin: bytes)
      returns (exhausted: bool, ret: int)
      requires Consistent(tot) && tot <= |data| && Onward(origin, partial, data)
      modifies this`pendingFlight, this`pendingFlightOffset, this`items, this`sent, this`partial, this`pending,
               this`pendTotal, this`pendAddress, this`pendReturn, this`base, this`earlyWritten, this`wnum,
               this`canEarlyWrite, wbuf, wbuf.buf
      ensures Onward(origin, partial, data)
      ensures ret <= 0 || (Consistent(tot + ret) && !pending && ret <= |data| - tot && wnum == old(wnum))
      ensures ret > 0 || (Consistent(wnum) && wnum == tot)
      ensures exhausted ==> ret == -1 && earlyWritten == maxEarlyData && !canEarlyWrite
      ensures old(pending) && ret > 0 ==> movingBuffer || old(pendAddress) == address + tot
      ensures !old(pending) || |data| >= |old(partial)| || (ret == -1 && partial == old(partial))
      ensures old(Clear()) && !early && tot < |data|
        && (old(pending) ==> |old(partial)| <= |data| && (movingBuffer || old(pendAddress) == address + tot))
        ==> ret > 0
      ensures ret > 0 && old(Clear()) ==> Clear()
      ensures wbuf.buf == old(wbuf.buf) || fresh(wbuf.buf)
    {
      exhausted, ret := WriteRecord(data, tot, address, early);
      OnwardFurther(origin, old(partial), partial, data);
      if ret <= 0 {
        wnum := tot;
        canEarlyWrite := canEarlyWrite && !exhausted;
      }
    }

    /** The records of the caller's buffer from `start` on, until all are written or one is not. */
    method WriteRecords(data: bytes, start: nat, address: nat) returns (needsHandshake: bool, ret: int)
      requires Consistent(start) && start <= |data|
      modifies this`pendingFlight, this`pendingFlightOffset, this`items, this`sent, this`partial, this`pending,
               this`pendTotal, this`pendAddress, this`pendReturn, this`base, this`earlyWritten, this`wnum,
               this`canEarlyWrite, wbuf, wbuf.buf
      ensures Onward(old(partial), partial, data)
      ensures ret <= 0 || (ret <= |data| && (ret == |data| || partialWrite) && !pending && wnum == old(wnum))
      ensures (ret > 0 || Consistent(wnum)) && (ret <= 0 || Consistent(ret))
      ensures needsHandshake ==> ret == -1 && earlyWritten == maxEarlyData && !canEarlyWrite
      ensures old(pending) && ret > 0 ==> movingBuffer || old(pendAddress) == address + start
      ensures !old(pending) || |data| >= |old(partial)| || (ret == -1 && partial == old(partial) && wnum == start)
      ensures old(Clear()) && !(inEarlyData && old(canEarlyWrite)) && start < |data|
        && (old(pending) ==> |old(partial)| <= |data| && (movingBuffer || old(pendAddress) == address + start))
        ==> ret > 0
      ensures wbuf.buf == old(wbuf.buf) || fresh(wbuf.buf)
    {
      needsHandshake := false;
      var early := inEarlyData && canEarlyWrite;
      var tot := start;
      while true
        invariant tot <= |data|
        invariant Consistent(tot) && wnum == old(wnum)
        invariant Onward(old(partial), partial, data)
        invariant tot != start
          || (partial == old(partial) && pending == old(pending) && pendAddress == old(pendAddress))
        invariant tot == start || !old(pending)
          || (|old(partial)| <= |data| && (movingBuffer || old(pendAddress) == address + start))
        invariant old(Clear()) ==> Clear()
        invariant tot == start || (tot < |data| && !pending)
        invariant wbuf.buf == old(wbuf.buf) || fresh(wbuf.buf)
        decreases |data| - tot
      {
        needsHandshake, ret := WriteNext(data, tot, address, early, old(partial));
        if ret <= 0 {
          return;
        }
        if ret == |data| - tot || partialWrite {
          ret := tot + ret;
          return;
        }
        tot := tot + ret;
      }
    }

    /**
     Writes from the caller's buffer, which lies at `address`. What earlier calls had sealed of it but not
     reported is not sealed again; if the buffer starts with that, then whenever a count is returned
     exactly so much of the buffer has been sealed, once. A retry with less than was dealt with fails and
     forgets the count; one with less than the record in the buffer holds fails and forgets nothing.
     */
    method WriteAppData(data: bytes, len: int, address: nat) returns (needsHandshake: bool, ret: int)
      requires Valid() && (len >= 0 ==> |data| == len)
      modifies this, wbuf, wbuf.buf
      ensures writeShutdown == old(writeShutdown)
      ensures writeShutdown ==> ret == -1 && Valid() && wnum == old(wnum)
      ensures !writeShutdown && len < old(wnum) ==>
        ret == -1 && wnum == 0 && Consistent(old(wnum)) && pending == old(pending)
        && pendTotal == old(pendTotal) && pendAddress == old(pendAddress) && base == old(base)
      ensures writeShutdown || len < old(wnum) ==> partial == old(partial) && reported == old(reported)
      ensures !writeShutdown ==> (Valid() <==> len >= old(wnum) || old(wnum) == 0)
      ensures old(Clear()) && !writeShutdown && !(inEarlyData && old(canEarlyWrite)) && old(wnum) < len
        && |old(partial)| <= len && (old(pending) ==> movingBuffer || old(pendAddress) == address + old(wnum))
        ==> ret > 0
      ensures !writeShutdown && old(wnum) <= len < |old(partial)| ==>
        ret == -1 && wnum == old(wnum) && partial == old(partial) && reported == old(reported)
      ensures !writeShutdown && len >= old(wnum) && ret > 0 ==>
        && |old(partial)| <= ret <= len && (ret == len || partialWrite)
        && partial == [] && reported == old(reported) + old(partial) + data[|old(partial)|..ret]
        && (old(partial) <= data ==> reported == old(reported) + data[..ret])
        && (old(pending) ==> movingBuffer || old(pendAddress) == address + old(wnum))
      ensures !writeShutdown && len >= old(wnum) && ret <= 0 ==>
        && reported == old(reported) && Onward(old(partial), partial, data)
        && (old(partial) <= data ==> old(partial) <= partial <= data)
      ensures handshake == old(handshake)
      ensures needsHandshake ==> ret == -1 && earlyWritten == maxEarlyData && !canEarlyWrite
      ensures wbuf.buf == old(wbuf.buf) || fresh(wbuf.buf)
    {
      if writeShutdown {
        return false, -1;
      }
      var tot := wnum;
      wnum := 0;
      if len < tot {
        return false, -1;
      }
      needsHandshake, ret := WriteRecords(data, tot, address);
      if ret > 0 {
        Report(old(reported), old(partial), data, ret);
      }
    }

    /** The caller is told of what has been sealed. */
    ghost method Report(told: bytes, before: bytes, data: bytes, ret: nat)
      requires Consistent(ret) && !pending && told == reported && Onward(before, partial, data)
      modifies this`reported, this`partial
      ensures Consistent(0) && partial == [] && |before| <= ret
      ensures ret <= |data| ==>
        && reported == told + before + data[|before|..ret]
        && (before <= data ==> reported == told + data[..ret])
    {
      AccountsInFull();
      Assoc(reported, partial, []);
      if ret <= |data| {
        assert partial == before + data[|before|..ret];
        Assoc(told, before, data[|before|..ret]);
        if before <= data {
          OnwardIsPrefix(before, partial, data);
        }
      }
      reported := reported + partial;
      partial := [];
      forall a: Account ensures Balanced(a) {
        assert old(Balanced(a));
      }
    }

    /**
     Why a retry must not be shorter than what was dealt with: the count is forgotten. If no record is
     waiting in the buffer, the next full write seals all of the data again. If one is, that write takes
     it for the beginning of the data and seals what follows as much. But if the buffer may not move, and
     has not, that write fails, if anything had been dealt with.
     */
    method RetryAfterBadLength(data: bytes, short: int, address: nat) returns (ret: int)
      requires Valid() && !writeShutdown && short < wnum && (short >= 0 ==> short <= |data|)
      modifies this, wbuf, wbuf.buf
      ensures |old(partial)| == old(wnum) + (if old(pending) then old(pendTotal) else 0)
      ensures ret > 0 ==>
        var again := if old(pending) then old(pendTotal) else 0;
        again <= ret <= |data| && Plains(items) == old(reported) + old(partial) + data[again..ret]
      ensures old(pending) && !movingBuffer && address == old(base) && 0 < old(wnum) ==> ret <= 0
    {
      ghost var dealt := wnum;
      WriteTooLittle(if short >= 0 then data[..short] else [], short, address);
      Forget(dealt);
      ret := WriteFromStart(data, address);
      Assoc(old(reported), old(partial)[..dealt], old(partial)[dealt..]);
    }

    method WriteTooLittle(data: bytes, len: int, address: nat)
      requires Valid() && !writeShutdown && len < wnum && (len >= 0 ==> |data| == len)
      modifies this, wbuf, wbuf.buf
      ensures Consistent(old(wnum)) && wnum == 0 && !writeShutdown
      ensures partial == old(partial) && reported == old(reported)
      ensures pending == old(pending) && pendTotal == old(pendTotal) && pendAddress == old(pendAddress)
      ensures base == old(base) && (wbuf.buf == old(wbuf.buf) || fresh(wbuf.buf))
    {
      var needsHandshake, ret := WriteAppData(data, len, address);
    }

    method WriteFromStart(data: bytes, address: nat) returns (ret: int)
      requires Consistent(0) && wnum == 0 && !writeShutdown
      modifies this, wbuf, wbuf.buf
      ensures ret > 0 ==>
        |old(partial)| <= ret <= |data| && Plains(items) == old(reported) + old(partial) + data[|old(partial)|..ret]
      ensures old(pending) && !movingBuffer && old(pendAddress) != address ==> ret <= 0
    {
      var needsHandshake;
      needsHandshake, ret := WriteAppData(data, |data|, address);
      if ret > 0 {
        AccountsInFull();
        assert reported + [] == reported;
      }
    }

    /** The accounts start over: what was dealt with counts as done with. */
    ghost method Forget(dealt: nat)
      requires Consistent(dealt) && dealt <= |partial|
      modifies this`reported, this`partial, this`base
      ensures Consistent(0) && reported == old(reported) + old(partial)[..dealt] && partial == old(partial)[dealt..]
      ensures base == old(base) + dealt
    {
      AccountsInFull();
      Assoc(reported, partial[..dealt], partial[dealt..]);
      assert partial == partial[..dealt] + partial[dealt..];
      reported, partial, base := reported + partial[..dealt], partial[dealt..], base + dealt;
      forall a: Account ensures Balanced(a) {
        assert old(Balanced(a));
      }
    }

    /** No record that was ever queued holds more than a fragment, nor is one empty. */
    lemma EveryRecordFits(done: nat, i: nat)
      requires Consistent(done) && i < |items| && items[i].Record?
      ensures 0 < |items[i].plain| <= maxSendFragment <= MAX_PLAIN
    {
      AccountsInFull();
      RecordFits(items, maxSendFragment, i);
    }
  }
}
