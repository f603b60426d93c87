/**
 nanopb's output streams and its two-pass encoder.

 A stream either writes into a buffer or only counts. Arrays and submessages are sized first with a
 counting stream, then written. `Outcome` says of every operation that it succeeds exactly when the
 wire form exists and fits, and then leaves exactly the wire form in the buffer, so that counting
 and writing can never disagree.
 */
module PbEncoder {
  import opened Wrappers
  import opened Bytes
  import opened PbVarint
  import opened PbSchema
  import opened PbWire
  import opened PbIterator

  /** `Malformed` stands for memory that C's types rule out: a slot or value of the wrong shape. */
  datatype Status = Done | StreamFull | ArrayTooBig | InvalidDataSize | BytesTooBig | SubmessageSizeChanged | Malformed

  /** `was` with the bytes from `start` on replaced by `e`. */
  function Patch(was: bytes, start: nat, e: bytes): (r: bytes)
    requires start + |e| <= |was|
    ensures |r| == |was|
  {
    was[..start] + e + was[start + |e|..]
  }

  lemma PatchTwice(was: bytes, start: nat, a: bytes, b: bytes)
    requires start + |a| + |b| <= |was|
    ensures Patch(Patch(was, start, a), start + |a|, b) == Patch(was, start, a + b)
  {
  }

  lemma PatchNext(was: bytes, start: nat, b: bytes, i: nat)
    requires start + |b| <= |was| && i < |b|
    ensures Patch(was, start, b[..i])[start + i := b[i]] == Patch(was, start, b[..i + 1])
  {
  }

  function Join(a: bytes, e: Option<bytes>): Option<bytes>
  {
    if e.Some? then Some(a + e.value) else None
  }

  /** A value that memory of the field's type can hold. */
  predicate Holds(f: Field, v: Value)
  {
    match f.ltype
    case BytesField => v.Octets?
    case StringField => v.Text? && |v.s| <= f.dataSize && 0 !in v.s
    case FixedLengthBytes => v.Octets? && |v.b| == f.dataSize
    case Submessage => v.Sub?
    case Uvarint => v.Num? && (HalfRange(f.dataSize) == 0 || UnsignedFits(v.n, f.dataSize))
    case Fixed32 => v.Num? && UnsignedFits(v.n, 4)
    case Fixed64 => v.Num? && UnsignedFits(v.n, 8)
    case _ => v.Num? && (HalfRange(f.dataSize) == 0 || SignedFits(v.n, f.dataSize))
  }

  predicate HoldsAll(f: Field, items: seq<Value>)
  {
    forall v :: v in items ==> Holds(f, v)
  }

  // ---------------------------------------------------------------------------------------
  // How the wire form of a whole grows out of the wire forms of its parts.

  /** What is written for the first `n` entries of an array. */
  function ArrayBytes(f: Field, items: seq<Value>, n: nat): Option<bytes>
    requires n <= |items|
  {
    if Packable(f.ltype) then EncodePacked(f, items[..n])
    else match EncodeEntries(f, items[..n])
      case Some(recs) => Some(Flatten(recs))
      case None => None
  }

  function EntryBytes(f: Field, v: Value): Option<bytes>
  {
    match EncodeValue(f, v)
    case Some(b) => Some(if Packable(f.ltype) then b else Key(f.tag, WireType(f.ltype)) + b)
    case None => None
  }

  lemma FlattenOne(b: bytes)
    ensures Flatten([b]) == b
  {
    assert [b][1..] == [];
  }

  lemma ArrayGrows(f: Field, items: seq<Value>, n: nat)
    requires n < |items|
    ensures ArrayBytes(f, items, n + 1) ==
            if ArrayBytes(f, items, n).Some? then Join(ArrayBytes(f, items, n).value, EntryBytes(f, items[n])) else None
  {
    var upTo := items[..n + 1];
    assert upTo[..|upTo| - 1] == items[..n] && upTo[|upTo| - 1] == items[n];
    if !Packable(f.ltype) && EncodeEntries(f, items[..n]).Some? && EncodeValue(f, items[n]).Some? {
      var rec := Key(f.tag, WireType(f.ltype)) + EncodeValue(f, items[n]).value;
      FlattenAppend(EncodeEntries(f, items[..n]).value, [rec]);
      FlattenOne(rec);
    }
  }

  /** The whole of an array exists only if the first entries do, and is no shorter. */
  lemma {:induction false} ArrayCovers(f: Field, items: seq<Value>, n: nat)
    requires n <= |items|
    ensures var all := ArrayBytes(f, items, |items|); var part := ArrayBytes(f, items, n);
      all.Some? ==> part.Some? && |part.value| <= |all.value|
    decreases |items| - n
  {
    if n < |items| {
      ArrayGrows(f, items, n);
      ArrayCovers(f, items, n + 1);
    }
  }

  /** Fixed-width entries are sized by multiplying. */
  lemma {:induction false} FixedArraySize(f: Field, items: seq<Value>)
    requires f.ltype == Fixed32 || f.ltype == Fixed64
    requires HoldsAll(f, items)
    ensures EncodePacked(f, items).Some?
    ensures |EncodePacked(f, items).value| == (if f.ltype == Fixed32 then 4 * |items| else 8 * |items|)
  {
    if items != [] {
      var last := items[|items| - 1];
      assert last in items;
      assert Holds(f, last);
      FixedArraySize(f, items[..|items| - 1]);
    }
  }

  lemma {:induction false} BadEntry(f: Field, items: seq<Value>)
    requires !HoldsAll(f, items)
    ensures EncodePacked(f, items).None? && EncodeEntries(f, items).None?
  {
    var front, last := items[..|items| - 1], items[|items| - 1];
    assert items == front + [last];
    if Holds(f, last) {
      BadEntry(f, front);
    }
  }

  /** What is written for one field. */
  function FieldBytes(f: Field, slot: Slot): Option<bytes>
  {
    match FieldRecords(f, slot)
    case Some(recs) => Some(Flatten(recs))
    case None => None
  }

  function FieldsBytes(fields: seq<Field>, m: Message, n: nat): Option<bytes>
    requires n <= |fields|
  {
    match RecordsUpTo(fields, m, n)
    case Some(recs) => Some(Flatten(recs))
    case None => None
  }

  lemma FieldsGrow(fields: seq<Field>, m: Message, n: nat)
    requires n < |fields|
    ensures FieldsBytes(fields, m, n + 1) ==
            if FieldsBytes(fields, m, n).Some? && SlotOf(fields, n) < |m|
            then Join(FieldsBytes(fields, m, n).value, FieldBytes(fields[n], m[SlotOf(fields, n)])) else None
  {
    if RecordsUpTo(fields, m, n).Some? && SlotOf(fields, n) < |m| {
      var recs := FieldRecords(fields[n], m[SlotOf(fields, n)]);
      if recs.Some? {
        FlattenAppend(RecordsUpTo(fields, m, n).value, recs.value);
      }
    }
  }

  lemma {:induction false} FieldsCover(fields: seq<Field>, m: Message, n: nat)
    requires n <= |fields|
    ensures var all := FieldsBytes(fields, m, |fields|); var part := FieldsBytes(fields, m, n);
      all.Some? ==> part.Some? && |part.value| <= |all.value|
    decreases |fields| - n
  {
    if n < |fields| {
      FieldsGrow(fields, m, n);
      FieldsCover(fields, m, n + 1);
    }
  }

  lemma SingleRecord(f: Field, slot: Slot)
    requires ShapeOk(f, slot) && Present(f, slot) && !slot.Rep?
    ensures FieldBytes(f, slot) == Join(Key(f.tag, WireType(f.ltype)), EncodeValue(f, slot.v))
  {
    if EncodeValue(f, slot.v).Some? {
      FlattenOne(Key(f.tag, WireType(f.ltype)) + EncodeValue(f, slot.v).value);
    }
  }

  lemma ArrayRecord(f: Field, slot: Slot)
    requires f.htype == Repeated && slot.Rep? && slot.items != [] && |slot.items| <= f.arraySize
    ensures var a := ArrayBytes(f, slot.items, |slot.items|);
      FieldBytes(f, slot) ==
      if a.None? || !Packable(f.ltype) then a
      else Some(Key(f.tag, WT_STRING) + EncodeVarint(|a.value|) + a.value)
  {
    assert slot.items[..|slot.items|] == slot.items;
    if Packable(f.ltype) && EncodePacked(f, slot.items).Some? {
      var b := EncodePacked(f, slot.items).value;
      FlattenOne(Key(f.tag, WT_STRING) + LengthPrefixed(b));
      assert Key(f.tag, WT_STRING) + LengthPrefixed(b) == Key(f.tag, WT_STRING) + EncodeVarint(|b|) + b;
    }
  }

  function TopBitUnset(b: bytes): bytes
    requires b != []
  {
    b[|b| - 1 := b[|b| - 1] % 0x80]
  }

  lemma LastGroup(groups: bytes, v: nat)
    requires 0 < v <= 0x7f
    ensures TopBitUnset(groups + [v % 0x80 + 0x80]) == groups + EncodeVarint(v)
  {
    assert v % 0x80 == v && (v + 0x80) % 0x80 == v;
  }

  lemma MoreGroups(groups: bytes, v: nat)
    requires v > 0x7f
    ensures groups + [v % 0x80 + 0x80] + EncodeVarint(v / 0x80) == groups + EncodeVarint(v)
  {
    assert EncodeVarint(v) == [v % 0x80 + 0x80] + EncodeVarint(v / 0x80);
  }

  /** The loop that cuts a value into groups of seven bits. */
  method VarintGroups(v: nat) returns (buffer: bytes)
    requires v != 0
    ensures buffer == EncodeVarint(v)
    ensures v < LIMIT64 ==> |buffer| <= 10
  {
    buffer := [];
    var value := v;
    while value != 0
      invariant value != 0 ==> buffer + EncodeVarint(value) == EncodeVarint(v)
      invariant value == 0 ==> buffer != [] && TopBitUnset(buffer) == EncodeVarint(v)
    {
      if value > 0x7f { MoreGroups(buffer, value); } else { LastGroup(buffer, value); }
      buffer := buffer + [value % 0x80 + 0x80];
      value := value / 0x80;
    }
    buffer := TopBitUnset(buffer);
    if v < LIMIT64 { VarintFitsBuffer(v); }
  }

  lemma LittleEndian4(n: nat)
    ensures LittleEndian(n, 4) == [n % 0x100, n / 0x100 % 0x100, n / 0x1_0000 % 0x100, n / 0x100_0000 % 0x100]
  {
    assert LittleEndian(n / 0x100_0000, 1) == [n / 0x100_0000 % 0x100];
    assert LittleEndian(n / 0x1_0000, 2) == [n / 0x1_0000 % 0x100, n / 0x100_0000 % 0x100];
    assert LittleEndian(n / 0x100, 3) == [n / 0x100 % 0x100, n / 0x1_0000 % 0x100, n / 0x100_0000 % 0x100];
  }

  lemma Shifts(n: nat)
    ensures n / 0x100 / 0x100 == n / 0x1_0000
    ensures n / 0x1_0000 / 0x100 == n / 0x100_0000
    ensures n / 0x100_0000 / 0x100 == n / 0x1_0000_0000
  {
  }

  lemma MoreShifts(n: nat)
    ensures n / 0x1_0000_0000 / 0x100 == n / 0x100_0000_0000
    ensures n / 0x1_0000_0000 / 0x1_0000 == n / 0x1_0000_0000_0000
    ensures n / 0x1_0000_0000 / 0x100_0000 == n / 0x100_0000_0000_0000
  {
  }

  lemma LittleEndianNext(n: nat, k: nat)
    ensures LittleEndian(n, k + 1) == [n % 0x100] + LittleEndian(n / 0x100, k)
  {
  }

  lemma LittleEndian8(n: nat)
    ensures LittleEndian(n, 8) ==
            [n % 0x100, n / 0x100 % 0x100, n / 0x1_0000 % 0x100, n / 0x100_0000 % 0x100,
             n / 0x1_0000_0000 % 0x100, n / 0x100_0000_0000 % 0x100,
             n / 0x1_0000_0000_0000 % 0x100, n / 0x100_0000_0000_0000 % 0x100]
  {
    Shifts(n);
    MoreShifts(n);
    LittleEndian4(n / 0x1_0000_0000);
    LittleEndianNext(n / 0x100_0000, 4);
    LittleEndianNext(n / 0x1_0000, 5);
    LittleEndianNext(n / 0x100, 6);
    LittleEndianNext(n, 7);
  }

  // ---------------------------------------------------------------------------------------

  class OStream {
    const buf: array<u8>
    /** No callback: the stream only counts. */
    const sizing: bool
    const maxSize: nat
    var pos: nat
    var bytesWritten: nat

    ghost predicate Valid()
      reads this
    {
      sizing || (bytesWritten <= maxSize && pos + (maxSize - bytesWritten) <= buf.Length)
    }

    /** The stream, which was at `start` with `count` bytes written over `was`, has written `e` since. */
    ghost predicate Wrote(was: bytes, start: nat, count: nat, e: bytes)
      reads this, buf
    {
      && Valid() && |was| == buf.Length
      && bytesWritten == count + |e|
      && (if sizing then pos == start && buf[..] == was
          else pos == start + |e| && buf[..] == Patch(was, start, e))
    }

    /** Whatever it has written since, it stayed within its allowance. */
    ghost predicate Spared(was: bytes, start: nat, count: nat)
      reads this, buf
    {
      && Valid() && |was| == buf.Length && count <= bytesWritten
      && if sizing then pos == start && buf[..] == was else
         && pos + count == start + bytesWritten
         && buf[..start] == was[..start]
         && buf[start + (maxSize - count)..] == was[start + (maxSize - count)..]
    }

    predicate Fits(count: nat, n: nat)
    {
      sizing || count + n <= maxSize
    }

    /** Success exactly if there is something to write and it fits; never the size mismatch. */
    ghost predicate Outcome(was: bytes, start: nat, count: nat, e: Option<bytes>, st: Status)
      reads this, buf
    {
      && st != SubmessageSizeChanged
      && if st.Done? then e.Some? && Fits(count, |e.value|) && Wrote(was, start, count, e.value)
         else (e.Some? ==> st == StreamFull && !Fits(count, |e.value|)) && Spared(was, start, count)
    }

    /** What came before, then one more step. */
    lemma Then(was: bytes, start: nat, count: nat, a: bytes, mid: bytes, e: Option<bytes>, st: Status)
      requires |was| == |mid| == buf.Length && Fits(count, |a|)
      requires sizing || start + (maxSize - count) <= buf.Length
      requires if sizing then mid == was else start + |a| <= |was| && mid == Patch(was, start, a)
      requires Outcome(mid, if sizing then start else start + |a|, count + |a|, e, st)
      ensures Outcome(was, start, count, Join(a, e), st)
    {
      if !sizing {
        if st.Done? {
          PatchTwice(was, start, a, e.value);
        } else {
          var limit := start + (maxSize - count);
          assert buf[..start] == buf[..start + |a|][..start];
          assert mid[..start] == was[..start] && mid[limit..] == was[limit..];
        }
      }
    }

    constructor FromBuffer(buf: array<u8>, start: nat, size: nat)
      requires start + size <= buf.Length
      ensures Valid() && this.buf == buf && !sizing && maxSize == size && pos == start && bytesWritten == 0
    {
      this.buf := buf;
      sizing := false;
      maxSize := size;
      pos := start;
      bytesWritten := 0;
    }

    constructor Sizing()
      ensures Valid() && sizing && pos == 0 && bytesWritten == 0 && fresh(buf)
    {
      buf := new u8[0];
      sizing := true;
      maxSize := 0;
      pos := 0;
      bytesWritten := 0;
    }

    method Copy(b: bytes)
      requires pos + |b| <= buf.Length
      modifies this`pos, buf
      ensures pos == old(pos) + |b| && buf[..] == Patch(old(buf[..]), old(pos), b)
    {
      var dest := pos;
      pos := dest + |b|;
      for i := 0 to |b|
        invariant pos == dest + |b|
        invariant buf[..] == Patch(old(buf[..]), dest, b[..i])
      {
        PatchNext(old(buf[..]), dest, b, i);
        buf[dest + i] := b[i];
      }
      assert b[..|b|] == b;
    }

    method Write(b: bytes) returns (st: Status)
      requires Valid()
      modifies this, buf
      ensures Outcome(old(buf[..]), old(pos), old(bytesWritten), Some(b), st)
    {
      if !sizing {
        if bytesWritten + |b| > maxSize {
          return StreamFull;
        }
        Copy(b);
      }
      bytesWritten := bytesWritten + |b|;
      return Done;
    }

    /** `count` bytes from nowhere, for a stream that only counts. */
    method Count(count: nat)
      requires sizing
      modifies this`bytesWritten
      ensures bytesWritten == old(bytesWritten) + count
    {
      bytesWritten := bytesWritten + count;
    }

    method PutVarint(v: nat) returns (st: Status)
      requires Valid()
      modifies this, buf
      ensures Outcome(old(buf[..]), old(pos), old(bytesWritten), Some(EncodeVarint(v)), st)
    {
      if v <= 0x7f {
        st := Write([v]);
        return;
      }
      var buffer := VarintGroups(v);
      st := Write(buffer);
    }

    method PutTag(tag: nat, wt: nat) returns (st: Status)
      requires Valid()
      modifies this, buf
      ensures Outcome(old(buf[..]), old(pos), old(bytesWritten), Some(Key(tag, wt)), st)
    {
      st := PutVarint(8 * tag + wt);
    }

    method PutSvarint(n: int) returns (st: Status)
      requires Valid()
      modifies this, buf
      ensures Outcome(old(buf[..]), old(pos), old(bytesWritten), Some(EncodeVarint(ZigZag(n))), st)
    {
      st := PutVarint(ZigZag(n));
    }

    method PutString(b: bytes) returns (st: Status)
      requires Valid()
      modifies this, buf
      ensures Outcome(old(buf[..]), old(pos), old(bytesWritten), Some(LengthPrefixed(b)), st)
    {
      st := PutVarint(|b|);
      if !st.Done? {
        return;
      }
      ghost var mid := buf[..];
      st := Write(b);
      Then(old(buf[..]), old(pos), old(bytesWritten), EncodeVarint(|b|), mid, Some(b), st);
    }

    // -------------------------------------------------------------------------------------
    // The encoder.

    /** A value without its key. */
    method PutValue(f: Field, v: Value) returns (st: Status)
      requires Valid()
      modifies this, buf
      ensures Outcome(old(buf[..]), old(pos), old(bytesWritten), EncodeValue(f, v), st)
      decreases v, 4
    {
      if !Holds(f, v) {
        return Malformed;
      }
      match f.ltype {
        case Submessage => st := PutSubmessage(f.sub, v.m);
        case _ => st := PutScalar(f, v);
      }
    }

    method PutScalar(f: Field, v: Value) returns (st: Status)
      requires Valid() && Holds(f, v) && f.ltype != Submessage
      modifies this, buf
      ensures Outcome(old(buf[..]), old(pos), old(bytesWritten), EncodeValue(f, v), st)
    {
      match f.ltype {
        case Varint =>
          if HalfRange(f.dataSize) == 0 { return InvalidDataSize; }
          st := PutVarint(v.n % LIMIT64);
        case Uvarint =>
          if HalfRange(f.dataSize) == 0 { return InvalidDataSize; }
          st := PutVarint(v.n);
        case Svarint =>
          if HalfRange(f.dataSize) == 0 { return InvalidDataSize; }
          st := PutSvarint(v.n);
        case Fixed32 => st := PutFixed32(v.n);
        case Fixed64 => st := PutFixed64(v.n);
        case BytesField =>
          if |v.b| + BYTES_HEADER > f.dataSize { return BytesTooBig; }
          st := PutString(v.b);
        case StringField =>
          var size := 0;
          while size < f.dataSize && size < |v.s| && v.s[size] != 0
            invariant size <= |v.s|
          {
            size := size + 1;
          }
          assert size == |v.s| && v.s[..size] == v.s;
          st := PutString(v.s[..size]);
        case FixedLengthBytes => st := PutString(v.b[..f.dataSize]);
      }
    }

    method PutFixed32(n: u32) returns (st: Status)
      requires Valid()
      modifies this, buf
      ensures Outcome(old(buf[..]), old(pos), old(bytesWritten), Some(LittleEndian(n, 4)), st)
    {
      LittleEndian4(n);
      st := Write([n % 0x100, n / 0x100 % 0x100, n / 0x1_0000 % 0x100, n / 0x100_0000 % 0x100]);
    }

    method PutFixed64(n: u64) returns (st: Status)
      requires Valid()
      modifies this, buf
      ensures Outcome(old(buf[..]), old(pos), old(bytesWritten), Some(LittleEndian(n, 8)), st)
    {
      LittleEndian8(n);
      st := Write([n % 0x100, n / 0x100 % 0x100, n / 0x1_0000 % 0x100, n / 0x100_0000 % 0x100,
                   n / 0x1_0000_0000 % 0x100, n / 0x100_0000_0000 % 0x100,
                   n / 0x1_0000_0000_0000 % 0x100, n / 0x100_0000_0000_0000 % 0x100]);
    }

    /** One entry of an array: with its own key unless the array is packed. */
    method PutEntry(f: Field, v: Value) returns (st: Status)
      requires Valid()
      modifies this, buf
      ensures Outcome(old(buf[..]), old(pos), old(bytesWritten), EntryBytes(f, v), st)
      decreases v, 6
    {
      if Packable(f.ltype) {
        st := PutValue(f, v);
        return;
      }
      st := PutTagged(f, v);
    }

    method PutTagged(f: Field, v: Value) returns (st: Status)
      requires Valid()
      modifies this, buf
      ensures Outcome(old(buf[..]), old(pos), old(bytesWritten),
                      Join(Key(f.tag, WireType(f.ltype)), EncodeValue(f, v)), st)
      decreases v, 5
    {
      st := PutTag(f.tag, WireType(f.ltype));
      if !st.Done? {
        return;
      }
      ghost var mid := buf[..];
      st := PutValue(f, v);
      Then(old(buf[..]), old(pos), old(bytesWritten), Key(f.tag, WireType(f.ltype)), mid, EncodeValue(f, v), st);
    }

    /** The entries of an array, one after another. */
    method PutEntries(f: Field, items: seq<Value>) returns (st: Status)
      requires Valid()
      modifies this, buf
      ensures Outcome(old(buf[..]), old(pos), old(bytesWritten), ArrayBytes(f, items, |items|), st)
      decreases items, 5
    {
      var i := 0;
      st := Done;
      while i < |items|
        invariant i <= |items|
        invariant Outcome(old(buf[..]), old(pos), old(bytesWritten), ArrayBytes(f, items, i), Done)
      {
        ghost var mid, done := buf[..], ArrayBytes(f, items, i).value;
        st := PutEntry(f, items[i]);
        Then(old(buf[..]), old(pos), old(bytesWritten), done, mid, EntryBytes(f, items[i]), st);
        ArrayGrows(f, items, i);
        if !st.Done? {
          ArrayCovers(f, items, i + 1);
          return;
        }
        i := i + 1;
      }
      return Done;
    }

    /** A static array: packed wherever its entries allow, its size found first. */
    method PutArray(f: Field, slot: Slot) returns (st: Status)
      requires Valid() && f.htype == Repeated && slot.Rep?
      modifies this, buf
      ensures Outcome(old(buf[..]), old(pos), old(bytesWritten), FieldBytes(f, slot), st)
      decreases slot.items, 9
    {
      var items := slot.items;
      if |items| == 0 {
        return Done;
      }
      if |items| > f.arraySize {
        return ArrayTooBig;
      }
      if !HoldsAll(f, items) {
        BadEntry(f, items);
        return Malformed;
      }
      ArrayRecord(f, slot);
      assert items[..|items|] == items;
      if Packable(f.ltype) {
        st := PutPacked(f, items);
      } else {
        st := PutEntries(f, items);
      }
    }

    /** How many bytes the entries of a packed array take. */
    method SizePacked(f: Field, items: seq<Value>) returns (st: Status, size: nat)
      requires Packable(f.ltype) && HoldsAll(f, items)
      ensures st != SubmessageSizeChanged
      ensures st.Done? <==> EncodePacked(f, items).Some?
      ensures st.Done? ==> size == |EncodePacked(f, items).value|
      decreases items, 6
    {
      if f.ltype == Fixed32 {
        FixedArraySize(f, items);
        return Done, 4 * |items|;
      }
      if f.ltype == Fixed64 {
        FixedArraySize(f, items);
        return Done, 8 * |items|;
      }
      var sizestream := new OStream.Sizing();
      st := sizestream.PutEntries(f, items);
      assert items[..|items|] == items;
      size := sizestream.bytesWritten;
    }

    method PutPacked(f: Field, items: seq<Value>) returns (st: Status)
      requires Valid() && Packable(f.ltype) && HoldsAll(f, items)
      modifies this, buf
      ensures Outcome(old(buf[..]), old(pos), old(bytesWritten),
                      match EncodePacked(f, items)
                      case Some(b) => Some(Key(f.tag, WT_STRING) + EncodeVarint(|b|) + b)
                      case None => None, st)
      decreases items, 8
    {
      st := PutTag(f.tag, WT_STRING);
      if !st.Done? {
        return;
      }
      ghost var mid := buf[..];
      st := PutSized(f, items);
      ghost var e := EncodePacked(f, items);
      if e.Some? {
        assert Key(f.tag, WT_STRING) + EncodeVarint(|e.value|) + e.value
            == Key(f.tag, WT_STRING) + LengthPrefixed(e.value);
      }
      Then(old(buf[..]), old(pos), old(bytesWritten), Key(f.tag, WT_STRING), mid,
           if e.Some? then Some(LengthPrefixed(e.value)) else None, st);
    }

    /** Size, then entries. */
    method PutSized(f: Field, items: seq<Value>) returns (st: Status)
      requires Valid() && Packable(f.ltype) && HoldsAll(f, items)
      modifies this, buf
      ensures Outcome(old(buf[..]), old(pos), old(bytesWritten),
                      match EncodePacked(f, items)
                      case Some(b) => Some(LengthPrefixed(b))
                      case None => None, st)
      decreases items, 7
    {
      var size;
      st, size := SizePacked(f, items);
      if !st.Done? {
        return;
      }
      st := PutVarint(size);
      if !st.Done? {
        return;
      }
      ghost var mid, e := buf[..], EncodePacked(f, items);
      assert items[..|items|] == items;
      if sizing {
        Count(size);
        assert Wrote(mid, old(pos), old(bytesWritten) + |EncodeVarint(size)|, e.value);
        st := Done;
      } else {
        st := PutEntries(f, items);
      }
      Then(old(buf[..]), old(pos), old(bytesWritten), EncodeVarint(size), mid, e, st);
    }

    /** One field, with its key, if it is to be written at all. */
    method PutField(f: Field, slot: Slot) returns (st: Status)
      requires Valid()
      modifies this, buf
      ensures Outcome(old(buf[..]), old(pos), old(bytesWritten), FieldBytes(f, slot), st)
      decreases slot, 9
    {
      if !ShapeOk(f, slot) {
        return Malformed;
      }
      var has := true;
      match f.htype {
        case Required =>
        case Optional =>
          if f.hasFlag {
            has := slot.has;
          } else {
            var zero := AtDefaultValue(f, slot);
            has := !zero;
          }
        case Repeated =>
          st := PutArray(f, slot);
          return;
        case Oneof =>
          has := slot.which == f.tag;
      }
      if !has {
        return Done;
      }
      SingleRecord(f, slot);
      st := PutTagged(f, slot.v);
    }

    /** The field at position `n`, after those before it. */
    method PutFieldAt(fields: seq<Field>, m: Message, n: nat, data: nat,
                      ghost was: bytes, ghost start: nat, ghost count: nat) returns (st: Status)
      requires n < |fields| && data == SlotOf(fields, n) && |was| == buf.Length
      requires sizing || (count <= maxSize && start + (maxSize - count) <= buf.Length)
      requires Outcome(was, start, count, FieldsBytes(fields, m, n), Done)
      modifies this, buf
      ensures Outcome(was, start, count, FieldsBytes(fields, m, n + 1), st)
      decreases m, 9
    {
      FieldsGrow(fields, m, n);
      if data >= |m| {
        return Malformed;
      }
      ghost var mid, done := buf[..], FieldsBytes(fields, m, n).value;
      st := PutField(fields[n], m[data]);
      Then(was, start, count, done, mid, FieldBytes(fields[n], m[data]), st);
    }

    /** Every field in descriptor order. */
    method PutMessage(fields: seq<Field>, m: Message) returns (st: Status)
      requires Valid()
      modifies this, buf
      ensures Outcome(old(buf[..]), old(pos), old(bytesWritten), Encode(fields, m), st)
      decreases m, 10
    {
      var iter := new FieldIter(fields);
      var more := iter.Begin();
      st := Done;
      ghost var n := 0;
      while more
        invariant iter.Valid() && iter.fields == fields && fresh(iter)
        invariant more ==> n == iter.pos < |fields|
        invariant !more ==> n == |fields|
        invariant Outcome(old(buf[..]), old(pos), old(bytesWritten), FieldsBytes(fields, m, n), Done)
        decreases |fields| - n
      {
        st := PutFieldAt(fields, m, iter.pos, iter.data, old(buf[..]), old(pos), old(bytesWritten));
        if !st.Done? {
          FieldsCover(fields, m, n + 1);
          return;
        }
        more := iter.Next();
        n := n + 1;
      }
      return Done;
    }

    /** The message, then a zero byte. */
    method PutNullTerminated(fields: seq<Field>, m: Message) returns (st: Status)
      requires Valid()
      modifies this, buf
      ensures Outcome(old(buf[..]), old(pos), old(bytesWritten),
                      match Encode(fields, m)
                      case Some(b) => Some(b + [0])
                      case None => None, st)
    {
      st := PutMessage(fields, m);
      ghost var e := Encode(fields, m);
      if !st.Done? {
        return;
      }
      ghost var mid := buf[..];
      st := Write([0]);
      Then(old(buf[..]), old(pos), old(bytesWritten), e.value, mid, Some([0]), st);
    }

    /** Length, then the message into a substream that can hold exactly so much. */
    method PutSubmessage(fields: seq<Field>, m: Message) returns (st: Status)
      requires Valid()
      modifies this, buf
      ensures Outcome(old(buf[..]), old(pos), old(bytesWritten),
                      match Encode(fields, m)
                      case Some(b) => Some(LengthPrefixed(b))
                      case None => None, st)
      decreases m, 12
    {
      var sizer := new OStream.Sizing();
      st := sizer.PutMessage(fields, m);
      if !st.Done? {
        return;
      }
      var size := sizer.bytesWritten;
      st := PutVarint(size);
      if !st.Done? {
        return;
      }
      ghost var mid, e := buf[..], Encode(fields, m);
      st := PutSizedMessage(fields, m, size);
      Then(old(buf[..]), old(pos), old(bytesWritten), EncodeVarint(size), mid, e, st);
    }

    /** A message whose size is known: only counted, or written through a stream of exactly that size. */
    method PutSizedMessage(fields: seq<Field>, m: Message, size: nat) returns (st: Status)
      requires Valid() && Encode(fields, m).Some? && size == |Encode(fields, m).value|
      modifies this, buf
      ensures Outcome(old(buf[..]), old(pos), old(bytesWritten), Encode(fields, m), st)
      decreases m, 11
    {
      if sizing {
        Count(size);
        assert Wrote(old(buf[..]), old(pos), old(bytesWritten), Encode(fields, m).value);
        return Done;
      }
      if bytesWritten + size > maxSize {
        return StreamFull;
      }
      var substream := new OStream.FromBuffer(buf, pos, size);
      st := substream.PutMessage(fields, m);
      bytesWritten := bytesWritten + substream.bytesWritten;
      pos := substream.pos;
      if substream.bytesWritten != size {
        st := SubmessageSizeChanged;
      }
    }
  }

  // ---------------------------------------------------------------------------------------

  /** The check for a proto3 zero value, which for a message looks at every field. */
  method AtDefaultValue(f: Field, slot: Slot) returns (zero: bool)
    ensures zero == AtDefault(f, slot)
    decreases slot, 6
  {
    match (f.htype, slot) {
      case (Required, _) => return false;
      case (Repeated, Rep(items)) => return |items| == 0;
      case (Oneof, Union(which, _)) => return which == 0;
      case (Optional, Opt(has, _)) => return f.hasFlag && !has;
      case (Optional, One(v)) =>
        if f.hasFlag {
          return false;
        }
        if f.ltype == Submessage && v.Sub? {
          zero := AllFieldsAtDefault(f.sub, v.m);
        } else {
          zero := ZeroValue(f, v);
        }
      case _ => return false;
    }
  }

  method AllFieldsAtDefault(fields: seq<Field>, m: Message) returns (zero: bool)
    ensures zero == AllAtDefault(fields, m, |fields|)
    decreases m, 7
  {
    var iter := new FieldIter(fields);
    var more := iter.Begin();
    ghost var n := 0;
    while more
      invariant iter.Valid() && iter.fields == fields && fresh(iter)
      invariant more ==> n == iter.pos < |fields|
      invariant !more ==> n == |fields|
      invariant AllAtDefault(fields, m, n)
      decreases |fields| - n
    {
      var here := false;
      if iter.data < |m| {
        here := AtDefaultValue(fields[iter.pos], m[iter.data]);
      }
      if !here {
        NotAllAtDefault(fields, m, n);
        return false;
      }
      more := iter.Next();
      n := n + 1;
    }
    return true;
  }

  lemma {:induction false} NotAllAtDefault(fields: seq<Field>, m: Message, n: nat)
    requires n < |fields|
    requires SlotOf(fields, n) >= |m| || !AtDefault(fields[n], m[SlotOf(fields, n)])
    ensures !AllAtDefault(fields, m, |fields|)
  {
    var k := n + 1;
    while k < |fields|
      invariant n < k <= |fields| && !AllAtDefault(fields, m, k)
    {
      k := k + 1;
    }
  }

  /** The size of the wire form, whenever there is one. */
  method GetEncodedSize(fields: seq<Field>, m: Message) returns (st: Status, size: nat)
    ensures st.Done? <==> Encode(fields, m).Some?
    ensures st.Done? ==> size == |Encode(fields, m).value|
  {
    var stream := new OStream.Sizing();
    st := stream.PutMessage(fields, m);
    size := stream.bytesWritten;
  }

  /** A buffer of exactly the size found always suffices. */
  method EncodeToFit(fields: seq<Field>, m: Message) returns (encoded: Option<bytes>)
    ensures encoded == Encode(fields, m)
  {
    var st, size := GetEncodedSize(fields, m);
    if !st.Done? {
      return None;
    }
    var buf := new u8[size];
    var stream := new OStream.FromBuffer(buf, 0, size);
    st := stream.PutMessage(fields, m);
    assert buf[..] == Encode(fields, m).value;
    return Some(buf[..]);
  }
}
