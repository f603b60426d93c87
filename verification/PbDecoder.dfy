/**
 nanopb's input streams and its decoder, step by step. Every operation reads exactly what the
 functions of PbWire say of the bytes that remain, and the bitmap of required fields stands for
 the set of those that have come.
 */
module PbDecoder {
  import opened Wrappers
  import opened Bytes
  import opened PbVarint
  import opened PbSchema
  import opened PbWire
  import opened PbIterator

  // ---------------------------------------------------------------------------------------
  // Initialising.

  lemma {:induction false} RequiredGrows(fields: seq<Field>, i: nat, n: nat)
    requires i < n <= |fields|
    ensures RequiredBefore(fields, i) + (if fields[i].htype == Required then 1 else 0) <= RequiredBefore(fields, n)
    decreases n
  {
    if i + 1 < n {
      RequiredGrows(fields, i, n - 1);
    }
  }

  lemma DefaultsNext(fields: seq<Field>, n: nat)
    requires n < |fields|
    ensures var m, k, slot := DefaultsUpTo(fields, n), SlotOf(fields, n), DefaultSlot(fields[n]);
      DefaultsUpTo(fields, n + 1) == if k < |m| then m[k := slot] else m + [slot]
  {
    DefaultsAt(fields, n, n + 1);
  }

  /** Walks over the fields and gives each its default. */
  method SetToDefaults(fields: seq<Field>) returns (m: Message)
    ensures m == Defaults(fields)
    decreases fields, 1
  {
    m := [];
    var iter := new FieldIter(fields);
    var more := iter.Begin();
    ghost var n := 0;
    while more
      invariant iter.Valid() && iter.fields == fields && fresh(iter)
      invariant more ==> n == iter.pos < |fields|
      invariant !more ==> n == |fields|
      invariant m == DefaultsUpTo(fields, n)
      decreases |fields| - n
    {
      m := PlaceDefault(fields, m, iter.pos, iter.data);
      more := iter.Next();
      n := n + 1;
    }
  }

  /** The default of field `i` goes to its slot, which it may share. */
  method PlaceDefault(fields: seq<Field>, m: Message, i: nat, data: nat) returns (after: Message)
    requires i < |fields| && data == SlotOf(fields, i) && m == DefaultsUpTo(fields, i)
    ensures after == DefaultsUpTo(fields, i + 1)
    decreases fields, 0
  {
    var slot := SetFieldToDefault(fields[i]);
    DefaultsNext(fields, i);
    after := if data < |m| then m[data := slot] else m + [slot];
  }

  method SetFieldToDefault(f: Field) returns (slot: Slot)
    ensures slot == DefaultSlot(f)
    decreases f, 2
  {
    if f.htype == Repeated {
      return Rep([]);
    }
    if f.htype == Oneof {
      return UNSET;
    }
    var v: Value;
    if f.ltype == Submessage {
      var m := SetToDefaults(f.sub);
      v := Sub(m);
    } else {
      v := DefaultValue(f);
    }
    return if f.htype == Optional && f.hasFlag then Opt(false, v) else One(v);
  }

  // ---------------------------------------------------------------------------------------
  // The bitmap of required fields: two words of 32 bits, the lowest bit first.

  type Word32 = w: seq<bool> | |w| == 32 witness seq(32, i => false)

  /** The word with the lowest `k` bits set; all of them, shifted right by `32 - k`. */
  function Ones(k: nat): Word32
  {
    seq(32, i => i < k)
  }

  datatype Bitmap = Bitmap(low: Word32, high: Word32) {
    function Bit(r: nat): bool
      requires r < MAX_REQUIRED_FIELDS
    {
      if r < 32 then low[r] else high[r - 32]
    }

    function Mark(r: nat): Bitmap
      requires r < MAX_REQUIRED_FIELDS
    {
      if r < 32 then this.(low := low[r := true]) else this.(high := high[r - 32 := true])
    }
  }

  ghost predicate Shows(bits: Bitmap, seen: set<nat>)
  {
    forall r :: 0 <= r < MAX_REQUIRED_FIELDS ==> bits.Bit(r) == (r in seen)
  }

  /** The final test: whole words first, then the bits that remain. */
  method CheckBitmap(seenFields: Bitmap, count: nat) returns (ok: bool)
    requires forall r :: 0 <= r < MAX_REQUIRED_FIELDS && seenFields.Bit(r) ==> r < count
    ensures ok <==> forall r :: 0 <= r < count && r < MAX_REQUIRED_FIELDS ==> seenFields.Bit(r)
  {
    var n := if count > MAX_REQUIRED_FIELDS then MAX_REQUIRED_FIELDS else count;
    var words := [seenFields.low, seenFields.high];
    var i := 0;
    while i < n / 32
      invariant 0 <= i <= n / 32
      invariant forall r :: 0 <= r < 32 * i ==> seenFields.Bit(r)
    {
      if words[i] != Ones(32) {
        MissingBit(words[i], 32);
        var k: nat :| k < 32 && !words[i][k];
        assert !seenFields.Bit(32 * i + k);
        return false;
      }
      assert forall k :: 0 <= k < 32 ==> words[i][k] == Ones(32)[k];
      i := i + 1;
    }
    if n % 32 != 0 {
      var word := words[n / 32];
      assert forall k :: n % 32 <= k < 32 ==> !word[k] by {
        forall k | n % 32 <= k < 32 ensures !word[k] {
          assert word[k] == seenFields.Bit(32 * (n / 32) + k);
        }
      }
      if word != Ones(n % 32) {
        MissingBit(word, n % 32);
        var k: nat :| k < n % 32 && !word[k];
        assert !seenFields.Bit(32 * (n / 32) + k);
        return false;
      }
      assert forall k :: 0 <= k < n % 32 ==> word[k] == Ones(n % 32)[k];
    }
    return true;
  }

  lemma MissingBit(w: Word32, k: nat)
    requires k <= 32 && w != Ones(k) && forall i :: k <= i < 32 ==> !w[i]
    ensures exists i :: 0 <= i < k && !w[i]
  {
    if forall i :: 0 <= i < k ==> w[i] {
      assert forall i :: 0 <= i < 32 ==> w[i] == Ones(k)[i];
    }
  }

  ghost predicate OnlyRequired(fields: seq<Field>, seen: set<nat>)
  {
    forall r :: r in seen ==> r < RequiredBefore(fields, |fields|)
  }

  // ---------------------------------------------------------------------------------------

  /** With distinct numbers, wherever a search finds a number is where it is. */
  lemma OnlyOne(fields: seq<Field>, i: nat)
    requires DescriptorOk(fields) && i < |fields|
    ensures Find(fields, fields[i].tag) == Some(i)
  {
    assert Find(fields, fields[i].tag).Some?;
  }

  lemma Slices(b: bytes, pos: nat, n: nat, count: nat)
    requires pos + n <= |b| && count <= n
    ensures b[pos..pos + n][..count] == b[pos..pos + count]
    ensures b[pos..pos + n][count..] == b[pos + count..pos + n]
  {
  }

  class IStream {
    const buf: bytes
    var pos: nat
    var bytesLeft: nat

    ghost predicate Valid()
      reads this
    {
      pos + bytesLeft <= |buf|
    }

    function End(): nat
      reads this
    {
      pos + bytesLeft
    }

    /** What the stream has not read yet. */
    function Remaining(): (r: bytes)
      requires Valid()
      reads this
      ensures |r| == bytesLeft
    {
      buf[pos..pos + bytesLeft]
    }

    /** The result is what the wire form says, and the stream stands just after it. */
    ghost predicate Got<T>(spec: Option<Read<T>>, r: Option<T>)
      reads this
    {
      Valid() &&
      match spec
      case None => r.None?
      case Some(Read(v, rest)) => r == Some(v) && Remaining() == rest
    }

    constructor FromBuffer(buf: bytes, start: nat, size: nat)
      requires start + size <= |buf|
      ensures Valid() && this.buf == buf && pos == start && bytesLeft == size
    {
      this.buf := buf;
      pos := start;
      bytesLeft := size;
    }

    method ReadBytes(count: nat) returns (r: Option<bytes>)
      requires Valid()
      modifies this
      ensures End() == old(End())
      ensures Got(if |old(Remaining())| < count then None
                  else Some(Read(old(Remaining())[..count], old(Remaining())[count..])), r)
    {
      if bytesLeft < count {
        return None;
      }
      Slices(buf, pos, bytesLeft, count);
      r := Some(buf[pos..pos + count]);
      pos := pos + count;
      bytesLeft := bytesLeft - count;
    }

    method ReadByte() returns (r: Option<u8>)
      requires Valid()
      modifies this
      ensures End() == old(End())
      ensures Got(if old(Remaining()) == [] then None else Some(Read(old(Remaining())[0], old(Remaining())[1..])), r)
    {
      if bytesLeft == 0 {
        return None;
      }
      r := Some(buf[pos]);
      pos := pos + 1;
      bytesLeft := bytesLeft - 1;
    }

    method GetVarint32() returns (r: Option<nat>)
      requires Valid()
      modifies this
      ensures End() == old(End())
      ensures Got(DecodeVarint32(old(Remaining())), r)
    {
      var byte := ReadByte();
      if byte.None? {
        return None;
      }
      if byte.value < 0x80 {
        return Some(byte.value);
      }
      r := GetVarint32Rest(byte.value % 0x80);
    }

    /** The bytes after the first of a multibyte varint. */
    method GetVarint32Rest(low: nat) returns (r: Option<nat>)
      requires Valid()
      modifies this
      ensures End() == old(End())
      ensures Got(DecodeVarint32From(old(Remaining()), 7, low), r)
    {
      ghost var spec := DecodeVarint32From(Remaining(), 7, low);
      var bitpos: nat := 7;
      var result := low;
      var byte: u8 := 0x80;
      while byte >= 0x80
        invariant Valid() && End() == old(End()) && bitpos < 0x100
        invariant byte >= 0x80 ==> DecodeVarint32From(Remaining(), bitpos, result) == spec
        invariant byte < 0x80 ==>
          spec == if bitpos == 35 && byte / 0x10 % 8 != 0 then None else Some(Read(result, Remaining()))
        decreases bytesLeft, byte
      {
        var next := ReadByte();
        if next.None? {
          return None;
        }
        byte := next.value;
        if bitpos >= 32 {
          // Beyond bit 31 only continuation padding or a sign extension is let pass.
          var signExtension := if bitpos < 63 then 0xff else 0x01;
          if byte % 0x80 != 0 && (result < 0x8000_0000 || byte != signExtension) {
            return None;
          }
        } else {
          result := Gather(result, byte, bitpos, LIMIT32);
        }
        bitpos := (bitpos + 7) % 0x100;
      }
      if bitpos == 35 && byte / 0x10 % 8 != 0 {
        return None;
      }
      return Some(result);
    }

    method GetVarint64() returns (r: Option<nat>)
      requires Valid()
      modifies this
      ensures End() == old(End())
      ensures Got(DecodeVarint64(old(Remaining())), r)
    {
      ghost var spec := DecodeVarint64(Remaining());
      var bitpos: nat := 0;
      var result: nat := 0;
      while true
        invariant Valid() && End() == old(End()) && bitpos < 0x100
        invariant DecodeVarint64From(Remaining(), bitpos, result) == spec
        decreases bytesLeft
      {
        if bitpos >= 64 {
          return None;
        }
        var byte := ReadByte();
        if byte.None? {
          return None;
        }
        result := Gather(result, byte.value, bitpos, LIMIT64);
        bitpos := (bitpos + 7) % 0x100;
        if byte.value < 0x80 {
          return Some(result);
        }
      }
    }

    method SkipVarint() returns (ok: bool)
      requires Valid()
      modifies this
      ensures End() == old(End())
      ensures Skipped(PbWire.SkipVarint(old(Remaining())), ok)
    {
      ghost var spec := PbWire.SkipVarint(Remaining());
      while true
        invariant Valid() && End() == old(End())
        invariant PbWire.SkipVarint(Remaining()) == spec
        decreases bytesLeft
      {
        var byte := ReadByte();
        if byte.None? {
          return false;
        }
        if byte.value < 0x80 {
          return true;
        }
      }
    }

    ghost predicate Skipped(spec: Option<bytes>, ok: bool)
      reads this
    {
      Valid() && ok == spec.Some? && (ok ==> Remaining() == spec.value)
    }

    method SkipField(wt: nat) returns (ok: bool)
      requires Valid()
      modifies this
      ensures End() == old(End())
      ensures Skipped(PbWire.SkipField(wt, old(Remaining())), ok)
    {
      var r: Option<bytes>;
      if wt == WT_VARINT {
        ok := SkipVarint();
        return;
      } else if wt == WT_64BIT {
        r := ReadBytes(8);
      } else if wt == WT_STRING {
        r := GetLengthPrefixed();
      } else if wt == WT_32BIT {
        r := ReadBytes(4);
      } else {
        return false;
      }
      return r.Some?;
    }

    /** A length, then so many bytes. */
    method GetLengthPrefixed() returns (r: Option<bytes>)
      requires Valid()
      modifies this
      ensures End() == old(End())
      ensures Got(DecodeLength(old(Remaining())), r)
    {
      var size := GetVarint32();
      if size.None? {
        return None;
      }
      r := ReadBytes(size.value);
    }

    /** The stream gives up the bytes of a length-prefixed run to a stream of their own. */
    method MakeSubstream() returns (sub: IStream?)
      requires Valid()
      modifies this
      ensures sub != null <==> DecodeLength(old(Remaining())).Some?
      ensures sub == null ==> Valid() && End() == old(End())
      ensures sub != null ==> fresh(sub) && sub.Valid() && sub.buf == buf && sub.pos == pos
      ensures sub != null ==> sub.End() + bytesLeft == old(End()) && bytesLeft + sub.bytesLeft < old(bytesLeft)
      ensures sub != null ==>
        DecodeLength(old(Remaining())) == Some(Read(sub.Remaining(), buf[sub.End()..sub.End() + bytesLeft]))
    {
      var size := GetVarint32();
      if size.None? || bytesLeft < size.value {
        return null;
      }
      Slices(buf, pos, bytesLeft, size.value);
      sub := new IStream.FromBuffer(buf, pos, size.value);
      bytesLeft := bytesLeft - size.value;
    }

    /** Whatever the substream left is skipped; the stream goes on after it. */
    method CloseSubstream(sub: IStream)
      requires sub != this && sub.Valid() && sub.buf == buf && sub.End() + bytesLeft <= |buf|
      modifies this, sub
      ensures bytesLeft == old(bytesLeft) && pos == old(sub.End())
    {
      if sub.bytesLeft != 0 {
        var r := sub.ReadBytes(sub.bytesLeft);
      }
      pos := sub.pos;
    }

    // -------------------------------------------------------------------------------------
    // Values.

    method GetFixed32() returns (r: Option<Value>)
      requires Valid()
      modifies this
      ensures End() == old(End())
      ensures Got(DecodeFixed(old(Remaining()), 4), r)
    {
      var b := ReadBytes(4);
      if b.None? {
        return None;
      }
      Sum4(b.value);
      return Some(Num(b.value[0] as int + 0x100 * b.value[1] as int + 0x1_0000 * b.value[2] as int
                      + 0x100_0000 * b.value[3] as int));
    }

    method GetFixed64() returns (r: Option<Value>)
      requires Valid()
      modifies this
      ensures End() == old(End())
      ensures Got(DecodeFixed(old(Remaining()), 8), r)
    {
      var b := ReadBytes(8);
      if b.None? {
        return None;
      }
      Sum8(b.value);
      return Some(Num(b.value[0] as int + 0x100 * b.value[1] as int + 0x1_0000 * b.value[2] as int
                      + 0x100_0000 * b.value[3] as int + 0x1_0000_0000 * b.value[4] as int
                      + 0x100_0000_0000 * b.value[5] as int + 0x1_0000_0000_0000 * b.value[6] as int
                      + 0x100_0000_0000_0000 * b.value[7] as int));
    }

    method GetInteger(f: Field) returns (r: Option<Value>)
      requires Valid() && (f.ltype == Varint || f.ltype == Uvarint || f.ltype == Svarint)
      modifies this
      ensures End() == old(End())
      ensures Got(DecodeValue(f, Num(0), old(Remaining())), r)
    {
      var value := GetVarint64();
      if value.None? {
        return None;
      }
      r := DecodeInteger(f, value.value);
    }

    /** The bytes, string and fixed-length decoders. */
    method GetOctets(f: Field) returns (r: Option<Value>)
      requires Valid() && (f.ltype == BytesField || f.ltype == StringField || f.ltype == FixedLengthBytes)
      modifies this
      ensures End() == old(End())
      ensures Got(DecodeValue(f, Num(0), old(Remaining())), r)
    {
      var size := GetVarint32();
      if size.None? {
        return None;
      }
      match f.ltype {
        case BytesField =>
          if size.value + BYTES_HEADER > f.dataSize { return None; }
          var b := ReadBytes(size.value);
          r := if b.None? then None else Some(Octets(b.value));
        case StringField =>
          if size.value + 1 > f.dataSize { return None; }
          var b := ReadBytes(size.value);
          r := if b.None? then None else Some(Text(UpToNul(b.value)));
        case FixedLengthBytes =>
          if size.value == 0 {
            return Some(Octets(Zeros(f.dataSize)));
          }
          if size.value != f.dataSize { return None; }
          var b := ReadBytes(f.dataSize);
          r := if b.None? then None else Some(Octets(b.value));
      }
    }

    method GetSubmessage(f: Field, dest: Value) returns (r: Option<Value>)
      requires Valid() && f.ltype == Submessage && DescriptorOk(f.sub)
      requires f.htype == Repeated ==> dest == FreshItem(f)
      modifies this
      ensures End() == old(End())
      ensures Got(DecodeValue(f, dest, old(Remaining())), r)
      decreases bytesLeft, 2
    {
      var sub := MakeSubstream();
      if sub == null {
        return None;
      }
      if !dest.Sub? {
        CloseSubstream(sub);
        return None;
      }
      var m: Option<Message>;
      // Elsewhere a message merges into what its slot holds.
      if f.htype == Repeated {
        m := sub.GetMessage(f.sub);
      } else {
        m := sub.GetMessageNoinit(f.sub, dest.m);
      }
      CloseSubstream(sub);
      return if m.None? then None else Some(Sub(m.value));
    }

    method GetValue(f: Field, dest: Value) returns (r: Option<Value>)
      requires Valid() && (f.ltype == Submessage ==> DescriptorOk(f.sub))
      requires f.htype == Repeated ==> dest == FreshItem(f)
      modifies this
      ensures End() == old(End())
      ensures Got(DecodeValue(f, dest, old(Remaining())), r)
      decreases bytesLeft, 3
    {
      match f.ltype {
        case Fixed32 => r := GetFixed32();
        case Fixed64 => r := GetFixed64();
        case Submessage => r := GetSubmessage(f, dest);
        case BytesField => r := GetOctets(f);
        case StringField => r := GetOctets(f);
        case FixedLengthBytes => r := GetOctets(f);
        case _ => r := GetInteger(f);
      }
    }

    /** The entries of a packed array, as long as there are bytes and room. */
    method GetPacked(f: Field, items: seq<Value>) returns (r: Option<seq<Value>>)
      requires Valid() && f.htype == Repeated && Packable(f.ltype)
      modifies this
      ensures Valid() && End() == old(End())
      ensures r == DecodePacked(f, items, old(Remaining()))
      decreases bytesLeft, 4
    {
      var all := items;
      ghost var spec := DecodePacked(f, items, Remaining());
      var status := true;
      while bytesLeft > 0 && |all| < f.arraySize
        invariant Valid() && End() == old(End()) && bytesLeft <= old(bytesLeft)
        invariant status && DecodePacked(f, all, Remaining()) == spec
        decreases bytesLeft
      {
        var v := GetValue(f, Num(0));
        if v.None? {
          status := false;
          break;
        }
        all := all + [v.value];
      }
      if bytesLeft != 0 {
        return None;
      }
      return if status then Some(all) else None;
    }

    /** One record of a known field into its slot. */
    method GetField(f: Field, wt: nat, slot: Slot) returns (r: Option<Slot>)
      requires Valid() && (f.ltype == Submessage ==> DescriptorOk(f.sub))
      modifies this
      ensures End() == old(End())
      ensures Got(DecodeField(f, wt, slot, old(Remaining())), r)
      decreases bytesLeft, 5
    {
      if !ShapeOk(f, slot) {
        return None;
      }
      match f.htype {
        case Required =>
          var v := GetValue(f, slot.v);
          r := if v.None? then None else Some(One(v.value));
        case Optional =>
          var v := GetValue(f, slot.v);
          r := if v.None? then None else Some(if f.hasFlag then Opt(true, v.value) else One(v.value));
        case Repeated => r := GetEntries(f, wt, slot);
        case Oneof =>
          var dest := Num(0);
          if f.ltype == Submessage {
            var m := SetToDefaults(f.sub);
            dest := Sub(m);
          }
          var v := GetValue(f, dest);
          r := if v.None? then None else Some(Union(f.tag, v.value));
      }
    }

    method GetEntries(f: Field, wt: nat, slot: Slot) returns (r: Option<Slot>)
      requires Valid() && f.htype == Repeated && slot.Rep? && (f.ltype == Submessage ==> DescriptorOk(f.sub))
      modifies this
      ensures End() == old(End())
      ensures Got(DecodeField(f, wt, slot, old(Remaining())), r)
      decreases bytesLeft, 4
    {
      if wt == WT_STRING && Packable(f.ltype) {
        var sub := MakeSubstream();
        if sub == null {
          return None;
        }
        var items := sub.GetPacked(f, slot.items);
        CloseSubstream(sub);
        return if items.None? then None else Some(Rep(items.value));
      }
      if |slot.items| >= f.arraySize {
        return None;
      }
      var v := GetValue(f, FreshItem(f));
      r := if v.None? then None else Some(Rep(slot.items + [v.value]));
    }

    // -------------------------------------------------------------------------------------
    // Messages.

    /** One record, key already read: found and decoded, or skipped. */
    method GetRecord(iter: FieldIter, msg: Message, seenFields: Bitmap, tag: nat, wt: nat, ghost seen: set<nat>)
      returns (r: Option<(Message, Bitmap)>, ghost st: State)
      requires Valid() && iter.Valid() && DescriptorOk(iter.fields)
      requires Shows(seenFields, seen) && OnlyRequired(iter.fields, seen)
      modifies this, iter
      ensures Valid() && iter.Valid() && End() == old(End())
      ensures
        match DecodeRecord(iter.fields, State(msg, seen), tag, wt, old(Remaining()))
        case None => r.None?
        case Some(Read(next, rest)) =>
          && st == next && r.Some? && Remaining() == rest
          && r.value.0 == next.msg && Shows(r.value.1, next.seen) && OnlyRequired(iter.fields, next.seen)
      decreases bytesLeft, 7
    {
      var fields := iter.fields;
      st := State(msg, seen);
      var found, visited := iter.Seek(tag);
      if !found {
        var ok := SkipField(wt);
        return if ok then Some((msg, seenFields)) else None, st;
      }
      if fields == [] {
        // The terminator, which no data fits.
        return None, st;
      }
      r, st := GetKnown(iter, msg, seenFields, wt, seen);
    }

    /** The record of the field the iterator stands at. */
    method GetKnown(iter: FieldIter, msg: Message, seenFields: Bitmap, wt: nat, ghost seen: set<nat>)
      returns (r: Option<(Message, Bitmap)>, ghost st: State)
      requires Valid() && iter.Valid() && DescriptorOk(iter.fields) && iter.fields != []
      requires Shows(seenFields, seen) && OnlyRequired(iter.fields, seen)
      modifies this
      ensures Valid() && End() == old(End())
      ensures
        match DecodeRecord(iter.fields, State(msg, seen), iter.fields[iter.pos].tag, wt, old(Remaining()))
        case None => r.None?
        case Some(Read(next, rest)) =>
          && st == next && r.Some? && Remaining() == rest
          && r.value.0 == next.msg && Shows(r.value.1, next.seen) && OnlyRequired(iter.fields, next.seen)
      decreases bytesLeft, 6
    {
      var fields := iter.fields;
      st := State(msg, seen);
      OnlyOne(fields, iter.pos);
      if iter.data >= |msg| {
        return None, st;
      }
      var slot := GetField(fields[iter.pos], wt, msg[iter.data]);
      if slot.None? {
        return None, st;
      }
      st := Stored(fields, st, iter.pos, slot.value);
      var seenFields' := seenFields;
      if fields[iter.pos].htype == Required && iter.requiredIndex < MAX_REQUIRED_FIELDS {
        RequiredGrows(fields, iter.pos, |fields|);
        seenFields' := seenFields.Mark(iter.requiredIndex);
      }
      return Some((msg[iter.data := slot.value], seenFields')), st;
    }

    method GetMessageNoinit(fields: seq<Field>, m: Message) returns (r: Option<Message>)
      requires Valid() && DescriptorOk(fields)
      modifies this
      ensures Valid() && End() == old(End())
      ensures r == Decode(fields, m, old(Remaining()))
      decreases bytesLeft, 1
    {
      var msg := m;
      var seenFields := Bitmap(Ones(0), Ones(0));
      var iter := new FieldIter(fields);
      ghost var seen: set<nat> := {};
      ghost var spec := DecodeRecords(fields, State(m, {}), Remaining());
      while bytesLeft != 0
        invariant Valid() && End() == old(End()) && bytesLeft <= old(bytesLeft)
        invariant fresh(iter) && iter.Valid() && iter.fields == fields
        invariant Shows(seenFields, seen) && OnlyRequired(fields, seen)
        invariant DecodeRecords(fields, State(msg, seen), Remaining()) == spec
        decreases bytesLeft
      {
        var key := GetVarint32();
        if key.None? {
          return None;
        }
        if key.value == 0 {
          break;
        }
        var next, st := GetRecord(iter, msg, seenFields, key.value / 8, key.value % 8, seen);
        if next.None? {
          return None;
        }
        msg, seenFields, seen := next.value.0, next.value.1, st.seen;
      }
      assert spec == Some(State(msg, seen));
      var count := iter.CountRequired();
      var complete := CheckBitmap(seenFields, count);
      return if complete then Some(msg) else None;
    }

    /** A message behind its length; whatever of it was not read is skipped. */
    method GetDelimited(fields: seq<Field>) returns (r: Option<Message>)
      requires Valid() && DescriptorOk(fields)
      modifies this
      ensures
        match DecodeLength(old(Remaining()))
        case None => r.None?
        case Some(Read(s, rest)) => r == Decode(fields, Defaults(fields), s) && Valid() && Remaining() == rest
    {
      var sub := MakeSubstream();
      if sub == null {
        return None;
      }
      r := sub.GetMessage(fields);
      CloseSubstream(sub);
    }

    method GetMessage(fields: seq<Field>) returns (r: Option<Message>)
      requires Valid() && DescriptorOk(fields)
      modifies this
      ensures Valid() && End() == old(End())
      ensures r == Decode(fields, Defaults(fields), old(Remaining()))
      decreases bytesLeft, 2
    {
      var m := SetToDefaults(fields);
      r := GetMessageNoinit(fields, m);
    }
  }

  lemma Sum4(b: bytes)
    requires |b| == 4
    ensures FromLittleEndian(b) == b[0] as int + 0x100 * b[1] as int + 0x1_0000 * b[2] as int + 0x100_0000 * b[3] as int
  {
    assert b[1..][1..] == b[2..] && b[2..][1..] == b[3..] && b[3..][1..] == [];
    assert FromLittleEndian(b[3..]) == b[3];
    assert FromLittleEndian(b[2..]) == b[2] as int + 0x100 * b[3] as int;
    assert FromLittleEndian(b[1..]) == b[1] as int + 0x100 * b[2] as int + 0x1_0000 * b[3] as int;
  }

  lemma Sum8(b: bytes)
    requires |b| == 8
    ensures FromLittleEndian(b) ==
            b[0] as int + 0x100 * b[1] as int + 0x1_0000 * b[2] as int + 0x100_0000 * b[3] as int
            + 0x1_0000_0000 * b[4] as int + 0x100_0000_0000 * b[5] as int
            + 0x1_0000_0000_0000 * b[6] as int + 0x100_0000_0000_0000 * b[7] as int
  {
    var t := b[4..];
    Sum4(t);
    assert b[1..][1..] == b[2..] && b[2..][1..] == b[3..] && b[3..][1..] == t;
    assert FromLittleEndian(b[3..]) == b[3] as int + 0x100 * FromLittleEndian(t);
    assert FromLittleEndian(b[2..]) == b[2] as int + 0x100 * FromLittleEndian(b[3..]);
    assert FromLittleEndian(b[1..]) == b[1] as int + 0x100 * FromLittleEndian(b[2..]);
  }
}
