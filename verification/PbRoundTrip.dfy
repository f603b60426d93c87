/**
 Decoding inverts encoding: for every well-formed descriptor and every message that encodes, the
 decoder rebuilds the fields that were present and leaves defaults elsewhere, also when records
 of unknown fields are mixed in.
 */
module PbRoundTrip {
  import opened Wrappers
  import opened Bytes
  import opened PbVarint
  import opened PbSchema
  import opened PbWire

  // ---------------------------------------------------------------------------------------
  // What the decoder is meant to rebuild.

  /** The message with defaults wherever a field is not present, at every depth. */
  function Normal(fields: seq<Field>, m: Message): (r: Message)
    ensures |r| == |Defaults(fields)|
    decreases m, 8
  {
    NormalUpTo(fields, m, |fields|)
  }

  function NormalUpTo(fields: seq<Field>, m: Message, n: nat): (r: Message)
    requires n <= |fields|
    ensures |r| == |Defaults(fields)|
    decreases m, 7, n
  {
    if n == 0 then Defaults(fields) else
    var prev, f, k := NormalUpTo(fields, m, n - 1), fields[n - 1], SlotOf(fields, n - 1);
    if k < |m| && k < |prev| && ShapeOk(f, m[k]) && Present(f, m[k]) then prev[k := NormalSlot(f, m[k])] else prev
  }

  function NormalSlot(f: Field, slot: Slot): Slot
    decreases slot, 6
  {
    match slot
    case One(v) => One(NormalValue(f, v))
    case Opt(_, v) => Opt(true, NormalValue(f, v))
    case Rep(items) => Rep(NormalItems(f, items))
    case Union(which, v) => Union(which, NormalValue(f, v))
  }

  function NormalItems(f: Field, items: seq<Value>): (r: seq<Value>)
    ensures |r| == |items|
    decreases items, 5
  {
    if items == [] then [] else NormalItems(f, items[..|items| - 1]) + [NormalValue(f, items[|items| - 1])]
  }

  function NormalValue(f: Field, v: Value): Value
    decreases v, 4
  {
    if f.ltype == Submessage && v.Sub? then Sub(Normal(f.sub, v.m)) else v
  }

  // ---------------------------------------------------------------------------------------
  // Strings have room for their terminator.

  predicate Terminated(f: Field, v: Value)
    decreases v, 4
  {
    match (f.ltype, v)
    case (StringField, Text(s)) => |s| < f.dataSize
    case (Submessage, Sub(m)) => AllTerminated(f.sub, m, |f.sub|)
    case _ => true
  }

  predicate ItemsTerminated(f: Field, items: seq<Value>)
    decreases items, 5
  {
    items == [] || (ItemsTerminated(f, items[..|items| - 1]) && Terminated(f, items[|items| - 1]))
  }

  predicate SlotTerminated(f: Field, slot: Slot)
    decreases slot, 6
  {
    Present(f, slot) ==> if slot.Rep? then ItemsTerminated(f, slot.items) else Terminated(f, slot.v)
  }

  predicate AllTerminated(fields: seq<Field>, m: Message, n: nat)
    requires n <= |fields|
    decreases m, 7, n
  {
    n == 0 ||
    (AllTerminated(fields, m, n - 1)
     && (SlotOf(fields, n - 1) < |m| ==> SlotTerminated(fields[n - 1], m[SlotOf(fields, n - 1)])))
  }

  // ---------------------------------------------------------------------------------------
  // Lengths are read in 32 bits. Those of strings and bytes fit, since a field's size does.

  predicate ValueFits(f: Field, v: Value)
    decreases v, 4
  {
    f.ltype == Submessage && v.Sub? && Encode(f.sub, v.m).Some? ==>
      |Encode(f.sub, v.m).value| < LIMIT32 && LengthsFit(f.sub, v.m, |f.sub|)
  }

  predicate ItemsFit(f: Field, items: seq<Value>)
    decreases items, 5
  {
    items == [] || (ItemsFit(f, items[..|items| - 1]) && ValueFits(f, items[|items| - 1]))
  }

  predicate SlotFits(f: Field, slot: Slot)
    decreases slot, 6
  {
    Present(f, slot) ==>
      if !slot.Rep? then ValueFits(f, slot.v)
      else if !Packable(f.ltype) then ItemsFit(f, slot.items)
      else EncodePacked(f, slot.items).Some? ==> |EncodePacked(f, slot.items).value| < LIMIT32
  }

  /** Every length that stands in the encoding of the first `n` fields, at any depth, fits. */
  predicate LengthsFit(fields: seq<Field>, m: Message, n: nat)
    requires n <= |fields|
    decreases m, 7, n
  {
    n == 0 ||
    (LengthsFit(fields, m, n - 1)
     && (SlotOf(fields, n - 1) < |m| ==> SlotFits(fields[n - 1], m[SlotOf(fields, n - 1)])))
  }

  lemma SmallValueFits(f: Field, v: Value)
    requires EncodeValue(f, v).Some? && |EncodeValue(f, v).value| < LIMIT32
    ensures ValueFits(f, v)
    decreases v, 4
  {
    if f.ltype == Submessage {
      SmallMessageFits(f.sub, v.m);
    }
  }

  lemma SmallItemsFit(f: Field, items: seq<Value>)
    requires EncodeEntries(f, items).Some? && |Flatten(EncodeEntries(f, items).value)| < LIMIT32
    ensures ItemsFit(f, items)
    decreases items, 5
  {
    if items != [] {
      var init, last := items[..|items| - 1], items[|items| - 1];
      var rec := Key(f.tag, WireType(f.ltype)) + EncodeValue(f, last).value;
      FlattenAppend(EncodeEntries(f, init).value, [rec]);
      FlattenOne(rec);
      SmallItemsFit(f, init);
      SmallValueFits(f, last);
    }
  }

  lemma SmallSlotFits(f: Field, slot: Slot)
    requires FieldRecords(f, slot).Some? && |Flatten(FieldRecords(f, slot).value)| < LIMIT32
    ensures SlotFits(f, slot)
    decreases slot, 6
  {
    if Present(f, slot) {
      if !slot.Rep? {
        OnlyRecord(FieldRecords(f, slot).value);
        SmallValueFits(f, slot.v);
      } else if Packable(f.ltype) {
        OnlyRecord(FieldRecords(f, slot).value);
      } else {
        SmallItemsFit(f, slot.items);
      }
    }
  }

  lemma {:induction false} SmallRecordsFit(fields: seq<Field>, m: Message, n: nat)
    requires n <= |fields| && RecordsUpTo(fields, m, n).Some? && |Flatten(RecordsUpTo(fields, m, n).value)| < LIMIT32
    ensures LengthsFit(fields, m, n)
    decreases m, 7, n
  {
    if n > 0 {
      FlattenAppend(RecordsUpTo(fields, m, n - 1).value, FieldRecords(fields[n - 1], m[SlotOf(fields, n - 1)]).value);
      SmallRecordsFit(fields, m, n - 1);
      SmallSlotFits(fields[n - 1], m[SlotOf(fields, n - 1)]);
    }
  }

  /** It is enough that the whole is below 4 GiB. */
  lemma SmallMessageFits(fields: seq<Field>, m: Message)
    requires Encode(fields, m).Some? && |Encode(fields, m).value| < LIMIT32
    ensures LengthsFit(fields, m, |fields|)
    decreases m, 8
  {
    SmallRecordsFit(fields, m, |fields|);
  }

  // ---------------------------------------------------------------------------------------
  // Unknown fields, at any depth.

  datatype Unknown = Unknown(tag: nat, wt: nat, body: bytes)

  /** A well-formed field that the message type does not have. */
  predicate Strange(fields: seq<Field>, u: Unknown)
  {
    0 < u.tag < MAX_TAG && u.wt < 8 && Find(fields, u.tag).None? && SkipField(u.wt, u.body) == Some([])
  }

  datatype Part = Ours(rec: bytes) | Theirs(u: Unknown)

  function PartBytes(p: Part): bytes
  {
    match p
    case Ours(rec) => rec
    case Theirs(u) => Key(u.tag, u.wt) + u.body
  }

  function AllBytes(parts: seq<Part>): seq<bytes>
  {
    if parts == [] then [] else AllBytes(parts[..|parts| - 1]) + [PartBytes(parts[|parts| - 1])]
  }

  function OurRecords(parts: seq<Part>): seq<bytes>
  {
    if parts == [] then [] else
    var last := parts[|parts| - 1];
    OurRecords(parts[..|parts| - 1]) + if last.Ours? then [last.rec] else []
  }

  /**
   `parts` is the message with records of unknown fields before, between and after its own records,
   and so for every message inside it. What stands behind a length must be no longer than 32 bits tell.
   */
  ghost predicate Mixed(fields: seq<Field>, m: Message, parts: seq<Part>)
    decreases m, 8
  {
    (forall p :: p in parts && p.Theirs? ==> Strange(fields, p.u)) && MixedUpTo(fields, m, |fields|, OurRecords(parts))
  }

  ghost predicate MixedUpTo(fields: seq<Field>, m: Message, n: nat, recs: seq<bytes>)
    requires n <= |fields|
    decreases m, 7, n
  {
    if n == 0 then recs == [] else SlotOf(fields, n - 1) < |m| && exists k: nat :: MixedSplit(fields, m, n, recs, k)
  }

  /** The first `k` records are those of the fields before the last of `n`, the others are its own. */
  ghost predicate MixedSplit(fields: seq<Field>, m: Message, n: nat, recs: seq<bytes>, k: nat)
    requires 0 < n <= |fields| && SlotOf(fields, n - 1) < |m|
    decreases m, 7, n, 0
  {
    k <= |recs| && MixedUpTo(fields, m, n - 1, recs[..k])
      && MixedField(fields[n - 1], m[SlotOf(fields, n - 1)], recs[k..])
  }

  ghost predicate MixedField(f: Field, slot: Slot, recs: seq<bytes>)
    decreases slot, 6
  {
    ShapeOk(f, slot) &&
    if !Present(f, slot) then recs == []
    else match slot
      case Rep(items) =>
        if Packable(f.ltype) then FieldRecords(f, slot) == Some(recs) && SlotFits(f, slot)
        else |items| <= f.arraySize && MixedEntries(f, items, recs)
      case _ => |recs| == 1 && MixedRecord(f, slot.v, recs[0])
  }

  ghost predicate MixedEntries(f: Field, items: seq<Value>, recs: seq<bytes>)
    decreases items, 5
  {
    |recs| == |items| &&
    (items == [] || (MixedEntries(f, items[..|items| - 1], recs[..|items| - 1])
      && MixedRecord(f, items[|items| - 1], recs[|items| - 1])))
  }

  ghost predicate MixedRecord(f: Field, v: Value, rec: bytes)
    decreases v, 5
  {
    exists b :: MixedValue(f, v, b) && rec == Key(f.tag, WireType(f.ltype)) + b
  }

  ghost predicate MixedValue(f: Field, v: Value, b: bytes)
    decreases v, 4
  {
    if f.ltype == Submessage then
      v.Sub? && exists parts :: Mixed(f.sub, v.m, parts) && Behind(parts, b)
    else
      EncodeValue(f, v) == Some(b)
  }

  /** `b` is all of `parts` behind their length. */
  predicate Behind(parts: seq<Part>, b: bytes)
  {
    var all := Flatten(AllBytes(parts));
    |all| < LIMIT32 && b == LengthPrefixed(all)
  }

  /** Without unknown fields this is the encoding. */
  lemma ValueIsMixed(f: Field, v: Value)
    requires EncodeValue(f, v).Some? && ValueFits(f, v)
    ensures MixedValue(f, v, EncodeValue(f, v).value)
    decreases v, 4
  {
    if f.ltype == Submessage {
      var parts := Alone(RecordsUpTo(f.sub, v.m, |f.sub|).value);
      MessageIsMixed(f.sub, v.m);
      assert Behind(parts, EncodeValue(f, v).value);
    }
  }

  lemma EntriesAreMixed(f: Field, items: seq<Value>)
    requires EncodeEntries(f, items).Some? && ItemsFit(f, items)
    ensures MixedEntries(f, items, EncodeEntries(f, items).value)
    decreases items, 5
  {
    if items != [] {
      var init, last := items[..|items| - 1], items[|items| - 1];
      EntriesAreMixed(f, init);
      ValueIsMixed(f, last);
      assert EncodeEntries(f, items).value[..|init|] == EncodeEntries(f, init).value;
    }
  }

  lemma FieldIsMixed(f: Field, slot: Slot)
    requires FieldRecords(f, slot).Some? && SlotFits(f, slot)
    ensures MixedField(f, slot, FieldRecords(f, slot).value)
    decreases slot, 6
  {
    if Present(f, slot) {
      if slot.Rep? {
        if !Packable(f.ltype) { EntriesAreMixed(f, slot.items); }
      } else {
        ValueIsMixed(f, slot.v);
      }
    }
  }

  lemma RecordsAreMixed(fields: seq<Field>, m: Message, n: nat)
    requires n <= |fields| && RecordsUpTo(fields, m, n).Some? && LengthsFit(fields, m, n)
    ensures MixedUpTo(fields, m, n, RecordsUpTo(fields, m, n).value)
    decreases m, 7, n
  {
    if n > 0 {
      var a, b := RecordsUpTo(fields, m, n - 1).value, FieldRecords(fields[n - 1], m[SlotOf(fields, n - 1)]).value;
      RecordsAreMixed(fields, m, n - 1);
      FieldIsMixed(fields[n - 1], m[SlotOf(fields, n - 1)]);
      assert (a + b)[..|a|] == a && (a + b)[|a|..] == b;
      assert MixedSplit(fields, m, n, a + b, |a|);
    }
  }

  function Alone(recs: seq<bytes>): (parts: seq<Part>)
    ensures |parts| == |recs| && forall p :: p in parts ==> p.Ours?
  {
    if recs == [] then [] else Alone(recs[..|recs| - 1]) + [Ours(recs[|recs| - 1])]
  }

  lemma {:induction false} AloneIsAll(recs: seq<bytes>)
    ensures AllBytes(Alone(recs)) == recs && OurRecords(Alone(recs)) == recs
    decreases |recs|
  {
    if recs != [] {
      var parts := Alone(recs);
      AloneIsAll(recs[..|recs| - 1]);
      assert parts[..|parts| - 1] == Alone(recs[..|recs| - 1]);
    }
  }

  lemma MessageIsMixed(fields: seq<Field>, m: Message)
    requires RecordsUpTo(fields, m, |fields|).Some? && LengthsFit(fields, m, |fields|)
    ensures var recs := RecordsUpTo(fields, m, |fields|).value;
      Mixed(fields, m, Alone(recs)) && AllBytes(Alone(recs)) == recs
    decreases m, 8
  {
    AloneIsAll(RecordsUpTo(fields, m, |fields|).value);
    RecordsAreMixed(fields, m, |fields|);
  }

  lemma FlattenOne(b: bytes)
    ensures Flatten([b]) == b
  {
    assert b + Flatten([]) == b;
  }

  // ---------------------------------------------------------------------------------------
  // Scalars.

  lemma KeyDecodes(tag: nat, wt: nat, rest: bytes)
    requires tag < MAX_TAG && wt < 8
    ensures DecodeVarint32(Key(tag, wt) + rest) == Some(Read(8 * tag + wt, rest))
  {
    Varint32OfCanonical(8 * tag + wt, rest);
    SmallMod(8 * tag + wt, LIMIT32);
  }

  lemma LengthDecodes(b: bytes, rest: bytes)
    requires |b| < LIMIT32
    ensures DecodeLength(LengthPrefixed(b) + rest) == Some(Read(b, rest))
  {
    assert LengthPrefixed(b) + rest == EncodeVarint(|b|) + (b + rest);
    Varint32OfCanonical(|b|, b + rest);
    SmallMod(|b|, LIMIT32);
    assert (b + rest)[..|b|] == b && (b + rest)[|b|..] == rest;
  }

  lemma {:induction false} LittleEndianRoundTrip(n: nat, k: nat)
    requires n < Shl(1, 8 * k)
    ensures FromLittleEndian(LittleEndian(n, k)) == n
    decreases k
  {
    if k > 0 {
      Shl8(8 * (k - 1));
      LittleEndianRoundTrip(n / 0x100, k - 1);
      assert LittleEndian(n, k)[1..] == LittleEndian(n / 0x100, k - 1);
    }
  }

  lemma Shl8(n: nat)
    ensures Shl(1, n + 8) == 0x100 * Shl(1, n)
  {
    ShlUpOne(n + 1);
    ShlDouble(1, n);
    assert Shl(1, n + 1) == Shl(2, n);
  }

  lemma FixedDecodes(n: nat, k: nat, rest: bytes)
    requires (k == 4 && UnsignedFits(n, 4)) || (k == 8 && UnsignedFits(n, 8))
    ensures DecodeFixed(LittleEndian(n, k) + rest, k) == Some(Read(Num(n), rest))
  {
    Shl8(0);
    Shl8(8);
    Shl8(16);
    Shl8(24);
    Shl8(32);
    Shl8(40);
    Shl8(48);
    Shl8(56);
    LittleEndianRoundTrip(n, k);
    var b := LittleEndian(n, k) + rest;
    assert b[..k] == LittleEndian(n, k) && b[k..] == rest;
  }

  /** A signed number goes out as its 64-bit two's complement and comes back, at any size. */
  lemma VarintValueDecodes(n: int, f: Field)
    requires f.ltype == Varint && SignedFits(n, f.dataSize)
    ensures n % LIMIT64 < LIMIT64 && DecodeInteger(f, n % LIMIT64) == Some(Num(n))
  {
    var v := n % LIMIT64;
    assert v == if n < 0 then n + LIMIT64 else n;
    if f.dataSize != 8 {
      assert v % LIMIT32 == if n < 0 then n + LIMIT32 else n by {
        if n < 0 {
          Vanishes((n + LIMIT32) as nat, 0xffff_ffff);
          assert v == (n + LIMIT32) + 0xffff_ffff * LIMIT32;
          SmallMod((n + LIMIT32) as nat, LIMIT32);
        } else {
          SmallMod(n, LIMIT32);
        }
      }
    }
  }

  lemma IntegerDecodes(f: Field, v: Value, rest: bytes)
    requires f.ltype == Varint || f.ltype == Uvarint || f.ltype == Svarint
    requires EncodeValue(f, v).Some?
    ensures DecodeValue(f, v, EncodeValue(f, v).value + rest) == Some(Read(v, rest))
  {
    match f.ltype
    case Varint =>
      VarintValueDecodes(v.n, f);
      Varint64RoundTrip(v.n % LIMIT64, rest);
    case Uvarint =>
      Varint64RoundTrip(v.n, rest);
    case Svarint =>
      ZigZagInverse(v.n, 0);
      Varint64RoundTrip(ZigZag(v.n), rest);
  }

  // ---------------------------------------------------------------------------------------
  // Records and the states they lead to.

  /** In front of any input, `rec` takes the decoder from `st` to `st'`. */
  ghost predicate Moves(fields: seq<Field>, st: State, rec: bytes, st': State)
  {
    forall rest: bytes :: DecodeRecords(fields, st, rec + rest) == DecodeRecords(fields, st', rest)
  }

  ghost predicate Chain(fields: seq<Field>, st: State, recs: seq<bytes>, st': State)
    decreases |recs|
  {
    if recs == [] then st == st'
    else exists mid: State :: Through(fields, st, recs, mid, st')
  }

  /** The last record of `recs` leads from `mid`, where the others lead, to `st'`. */
  ghost predicate Through(fields: seq<Field>, st: State, recs: seq<bytes>, mid: State, st': State)
    requires recs != []
    decreases |recs|, 0
  {
    Chain(fields, st, recs[..|recs| - 1], mid) && Moves(fields, mid, recs[|recs| - 1], st')
  }

  lemma ChainNext(fields: seq<Field>, st: State, recs: seq<bytes>, mid: State, rec: bytes, st': State)
    requires Chain(fields, st, recs, mid) && Moves(fields, mid, rec, st')
    ensures Chain(fields, st, recs + [rec], st')
  {
    assert (recs + [rec])[..|recs|] == recs;
    assert Through(fields, st, recs + [rec], mid, st');
  }

  lemma {:induction false} ChainJoin(fields: seq<Field>, st: State, a: seq<bytes>, mid: State,
                                     b: seq<bytes>, st': State)
    requires Chain(fields, st, a, mid) && Chain(fields, mid, b, st')
    ensures Chain(fields, st, a + b, st')
    decreases |b|
  {
    if b == [] {
      assert a + b == a;
    } else {
      var init, last := b[..|b| - 1], b[|b| - 1];
      var m2: State :| Through(fields, mid, b, m2, st');
      ChainJoin(fields, st, a, mid, init, m2);
      ChainNext(fields, st, a + init, m2, last, st');
      assert a + b == (a + init) + [last];
    }
  }

  /** A record of a known field whose value decodes moves the message on by that field's slot. */
  lemma KnownRecordMoves(fields: seq<Field>, st: State, i: nat, wt: nat, body: bytes, slot: Slot)
    requires DescriptorOk(fields) && i < |fields| && wt < 8 && SlotOf(fields, i) < |st.msg|
    requires forall rest: bytes ::
      DecodeField(fields[i], wt, st.msg[SlotOf(fields, i)], body + rest) == Some(Read(slot, rest))
    ensures Moves(fields, st, Key(fields[i].tag, wt) + body, Stored(fields, st, i, slot))
  {
    var f := fields[i];
    assert f in fields;
    FindsItself(fields, i);
    forall rest: bytes
      ensures DecodeRecords(fields, st, Key(f.tag, wt) + body + rest)
           == DecodeRecords(fields, Stored(fields, st, i, slot), rest)
    {
      KeyDecodes(f.tag, wt, body + rest);
      assert Key(f.tag, wt) + body + rest == Key(f.tag, wt) + (body + rest);
      KeySplits(f.tag, wt);
    }
  }

  lemma KeySplits(tag: nat, wt: nat)
    requires wt < 8
    ensures (8 * tag + wt) / 8 == tag && (8 * tag + wt) % 8 == wt
  {
  }

  lemma FindsItself(fields: seq<Field>, i: nat)
    requires DescriptorOk(fields) && i < |fields|
    ensures Find(fields, fields[i].tag) == Some(i)
  {
    assert Find(fields, fields[i].tag).Some?;
  }

  lemma {:induction false} Varint32Extends(b: bytes, bitpos: nat, word: nat, more: bytes)
    requires DecodeVarint32From(b, bitpos, word).Some?
    ensures DecodeVarint32From(b + more, bitpos, word) ==
      var r := DecodeVarint32From(b, bitpos, word).value; Some(Read(r.value, r.rest + more))
    decreases |b|
  {
    assert (b + more)[1..] == b[1..] + more;
    var word' := if bitpos >= 32 then word else Gather(word, b[0], bitpos, LIMIT32);
    if b[0] >= 0x80 {
      Varint32Extends(b[1..], (bitpos + 7) % 0x100, word', more);
    }
  }

  lemma {:induction false} SkipVarintExtends(b: bytes, more: bytes)
    requires SkipVarint(b).Some?
    ensures SkipVarint(b + more) == Some(SkipVarint(b).value + more)
    decreases |b|
  {
    assert (b + more)[1..] == b[1..] + more;
    if b[0] >= 0x80 {
      SkipVarintExtends(b[1..], more);
    }
  }

  lemma LengthExtends(b: bytes, more: bytes)
    requires DecodeLength(b).Some?
    ensures DecodeLength(b + more) == Some(Read(DecodeLength(b).value.value, DecodeLength(b).value.rest + more))
  {
    assert (b + more)[1..] == b[1..] + more;
    if b[0] >= 0x80 {
      Varint32Extends(b[1..], 7, b[0] % 0x80, more);
    }
    var r := DecodeVarint32(b).value;
    assert DecodeVarint32(b + more) == Some(Read(r.value, r.rest + more));
    assert (r.rest + more)[..r.value] == r.rest[..r.value];
    assert (r.rest + more)[r.value..] == r.rest[r.value..] + more;
  }

  /** Skipping looks no further than the field. */
  lemma SkipExtends(wt: nat, b: bytes, more: bytes)
    requires SkipField(wt, b) == Some([])
    ensures SkipField(wt, b + more) == Some(more)
  {
    if wt == WT_VARINT {
      SkipVarintExtends(b, more);
      assert [] + more == more;
    } else if wt == WT_STRING {
      LengthExtends(b, more);
      assert [] + more == more;
    } else if wt == WT_64BIT {
      assert (b + more)[8..] == more;
    } else {
      assert (b + more)[4..] == more;
    }
  }

  /** Decoding takes one record after the other. */
  lemma RecordTaken(fields: seq<Field>, st: State, b: bytes, key: nat, body: bytes, st': State, rest: bytes)
    requires DecodeVarint32(b) == Some(Read(key, body)) && key != 0
    requires DecodeRecord(fields, st, key / 8, key % 8, body) == Some(Read(st', rest))
    ensures DecodeRecords(fields, st, b) == DecodeRecords(fields, st', rest)
  {
  }

  lemma StrangeRecord(fields: seq<Field>, u: Unknown, st: State, rest: bytes)
    requires Strange(fields, u)
    ensures DecodeRecord(fields, st, u.tag, u.wt, u.body + rest) == Some(Read(st, rest))
  {
    SkipExtends(u.wt, u.body, rest);
  }

  lemma StrangeSkipped(fields: seq<Field>, u: Unknown, st: State, rest: bytes)
    requires Strange(fields, u)
    ensures DecodeRecords(fields, st, Key(u.tag, u.wt) + (u.body + rest)) == DecodeRecords(fields, st, rest)
  {
    KeyDecodes(u.tag, u.wt, u.body + rest);
    KeySplits(u.tag, u.wt);
    StrangeRecord(fields, u, st, rest);
    RecordTaken(fields, st, Key(u.tag, u.wt) + (u.body + rest), 8 * u.tag + u.wt, u.body + rest, st, rest);
  }

  lemma StrangeMovesNothing(fields: seq<Field>, u: Unknown, st: State)
    requires Strange(fields, u)
    ensures Moves(fields, st, Key(u.tag, u.wt) + u.body, st)
  {
    forall rest: bytes
      ensures DecodeRecords(fields, st, Key(u.tag, u.wt) + u.body + rest) == DecodeRecords(fields, st, rest)
    {
      StrangeSkipped(fields, u, st, rest);
      assert Key(u.tag, u.wt) + u.body + rest == Key(u.tag, u.wt) + (u.body + rest);
    }
  }

  lemma {:induction false} MixedChain(fields: seq<Field>, st: State, parts: seq<Part>, st': State)
    requires Chain(fields, st, OurRecords(parts), st')
    requires forall p :: p in parts && p.Theirs? ==> Strange(fields, p.u)
    ensures Chain(fields, st, AllBytes(parts), st')
    decreases |parts|
  {
    if parts != [] {
      var init, last := parts[..|parts| - 1], parts[|parts| - 1];
      var recs := OurRecords(parts);
      if last.Ours? {
        assert recs[..|recs| - 1] == OurRecords(init);
        var mid: State :| Through(fields, st, recs, mid, st');
        MixedChain(fields, st, init, mid);
        ChainNext(fields, st, AllBytes(init), mid, last.rec, st');
      } else {
        assert recs == OurRecords(init);
        MixedChain(fields, st, init, st');
        assert last in parts;
        StrangeMovesNothing(fields, last.u, st');
        ChainNext(fields, st, AllBytes(init), st', PartBytes(last), st');
      }
    }
  }

  // ---------------------------------------------------------------------------------------
  // One field at a time.

  function SeenUpTo(fields: seq<Field>, n: nat): set<nat>
    requires n <= |fields|
  {
    if n == 0 then {} else
    var r := RequiredBefore(fields, n - 1);
    SeenUpTo(fields, n - 1) + if fields[n - 1].htype == Required && r < MAX_REQUIRED_FIELDS then {r} else {}
  }

  lemma {:induction false} SeenIsAllSoFar(fields: seq<Field>, n: nat, r: nat)
    requires n <= |fields|
    ensures r in SeenUpTo(fields, n) <==> r < RequiredBefore(fields, n) && r < MAX_REQUIRED_FIELDS
  {
    if n > 0 {
      SeenIsAllSoFar(fields, n - 1, r);
    }
  }

  function StateAt(fields: seq<Field>, m: Message, n: nat): State
    requires n <= |fields|
  {
    State(NormalUpTo(fields, m, n), SeenUpTo(fields, n))
  }

  /** A field with its own slot still finds the default there. */
  lemma {:induction false} SlotUntouched(fields: seq<Field>, m: Message, i: nat, n: nat)
    requires n <= i < |fields| && fields[i].htype != Oneof
    ensures SlotOf(fields, i) < |Defaults(fields)|
    ensures NormalUpTo(fields, m, n)[SlotOf(fields, i)] == DefaultSlot(fields[i])
    decreases n
  {
    DefaultsAt(fields, i, |fields|);
    if n > 0 {
      SlotUntouched(fields, m, i, n - 1);
      SlotsGrow(fields, n - 1, i);
    }
  }

  lemma SlotShaped(fields: seq<Field>, m: Message, i: nat, n: nat)
    requires n <= i < |fields| && fields[i].htype == Oneof
    ensures SlotOf(fields, i) < |Defaults(fields)|
    ensures NormalUpTo(fields, m, n)[SlotOf(fields, i)].Union?
    decreases n
  {
    DefaultsAt(fields, i, |fields|);
    if n > 0 {
      SlotShaped(fields, m, i, n - 1);
      if SlotOf(fields, n - 1) == SlotOf(fields, i) {
        SlotsExclusive(fields, n - 1, i);
      }
    }
  }

  lemma ValueDecodes(f: Field, v: Value, b: bytes, dest: Value, rest: bytes)
    requires MixedValue(f, v, b) && Terminated(f, v)
    requires f.ltype == Submessage ==> DescriptorOk(f.sub) && dest == Sub(Defaults(f.sub))
    ensures DecodeValue(f, dest, b + rest) == Some(Read(NormalValue(f, v), rest))
    decreases v, 4
  {
    match f.ltype
    case Fixed32 => FixedDecodes(v.n, 4, rest);
    case Fixed64 => FixedDecodes(v.n, 8, rest);
    case BytesField => LengthDecodes(v.b, rest);
    case StringField => LengthDecodes(v.s, rest);
    case FixedLengthBytes => LengthDecodes(v.b, rest); assert v.b == [] ==> Zeros(0) == v.b;
    case Submessage =>
      var parts :| Mixed(f.sub, v.m, parts) && Behind(parts, b);
      LengthDecodes(Flatten(AllBytes(parts)), rest);
      RoundTripAmongUnknowns(f.sub, v.m, parts);
    case Varint => IntegerDecodes(f, v, rest);
    case Uvarint => IntegerDecodes(f, v, rest);
    case Svarint => IntegerDecodes(f, v, rest);
  }

  /** The decoder's state with field `i` holding `slot`. */
  function With(fields: seq<Field>, m: Message, i: nat, slot: Slot): State
    requires i < |fields| && SlotOf(fields, i) < |Defaults(fields)|
  {
    StateAt(fields, m, i).(msg := NormalUpTo(fields, m, i)[SlotOf(fields, i) := slot])
  }

  lemma SingleFieldChain(fields: seq<Field>, m: Message, i: nat, rec: bytes)
    requires DescriptorOk(fields) && i < |fields| && SlotOf(fields, i) < |m|
    requires var f, slot := fields[i], m[SlotOf(fields, i)];
      && ShapeOk(f, slot) && Present(f, slot) && !slot.Rep? && MixedRecord(f, slot.v, rec)
      && Terminated(f, slot.v)
    ensures Moves(fields, StateAt(fields, m, i), rec, StateAt(fields, m, i + 1))
    decreases m[SlotOf(fields, i)], 5
  {
    var f, k, st := fields[i], SlotOf(fields, i), StateAt(fields, m, i);
    var slot := m[k];
    assert f in fields;
    if f.htype == Oneof { SlotShaped(fields, m, i, i); } else { SlotUntouched(fields, m, i, i); }
    var dest := if f.htype == Oneof then FreshItem(f) else st.msg[k].v;
    var b :| MixedValue(f, slot.v, b) && rec == Key(f.tag, WireType(f.ltype)) + b;
    forall rest: bytes
      ensures DecodeField(f, WireType(f.ltype), st.msg[k], b + rest) == Some(Read(NormalSlot(f, slot), rest))
    {
      ValueDecodes(f, slot.v, b, dest, rest);
    }
    KnownRecordMoves(fields, st, i, WireType(f.ltype), b, NormalSlot(f, slot));
    assert Stored(fields, st, i, NormalSlot(f, slot)) == StateAt(fields, m, i + 1);
  }

  lemma EntriesChain(fields: seq<Field>, m: Message, i: nat, items: seq<Value>, recs: seq<bytes>)
    requires DescriptorOk(fields) && i < |fields| && fields[i].htype == Repeated && !Packable(fields[i].ltype)
    requires SlotOf(fields, i) < |Defaults(fields)| && NormalUpTo(fields, m, i)[SlotOf(fields, i)] == Rep([])
    requires MixedEntries(fields[i], items, recs)
    requires |items| <= fields[i].arraySize && ItemsTerminated(fields[i], items)
    ensures Chain(fields, StateAt(fields, m, i), recs, With(fields, m, i, Rep(NormalItems(fields[i], items))))
    decreases items, 5
  {
    var f, k := fields[i], SlotOf(fields, i);
    assert f in fields;
    if items == [] {
      assert NormalUpTo(fields, m, i)[k := Rep([])] == NormalUpTo(fields, m, i);
    } else {
      var init, last := items[..|items| - 1], items[|items| - 1];
      var before, rec := recs[..|items| - 1], recs[|items| - 1];
      assert recs == before + [rec];
      EntriesChain(fields, m, i, init, before);
      EntryMoves(fields, m, i, NormalItems(f, init), last, rec);
      ChainNext(fields, StateAt(fields, m, i), before, With(fields, m, i, Rep(NormalItems(f, init))), rec,
                With(fields, m, i, Rep(NormalItems(f, items))));
    }
  }

  /** One more entry of an array. */
  lemma EntryMoves(fields: seq<Field>, m: Message, i: nat, items: seq<Value>, v: Value, rec: bytes)
    requires DescriptorOk(fields) && i < |fields| && fields[i].htype == Repeated && !Packable(fields[i].ltype)
    requires SlotOf(fields, i) < |Defaults(fields)| && |items| < fields[i].arraySize
    requires MixedRecord(fields[i], v, rec) && Terminated(fields[i], v)
    ensures Moves(fields, With(fields, m, i, Rep(items)), rec,
      With(fields, m, i, Rep(items + [NormalValue(fields[i], v)])))
    decreases v, 5
  {
    var f, k := fields[i], SlotOf(fields, i);
    assert f in fields;
    var b :| MixedValue(f, v, b) && rec == Key(f.tag, WireType(f.ltype)) + b;
    var st, slot := With(fields, m, i, Rep(items)), Rep(items + [NormalValue(f, v)]);
    forall rest: bytes
      ensures DecodeField(f, WireType(f.ltype), st.msg[k], b + rest) == Some(Read(slot, rest))
    {
      ValueDecodes(f, v, b, FreshItem(f), rest);
    }
    KnownRecordMoves(fields, st, i, WireType(f.ltype), b, slot);
    assert Stored(fields, st, i, slot) == With(fields, m, i, slot);
  }

  lemma {:induction false} PackedDecodes(f: Field, items: seq<Value>, rest: bytes)
    requires Packable(f.ltype) && EncodePacked(f, items).Some? && |items| <= f.arraySize
    ensures DecodePacked(f, [], EncodePacked(f, items).value + rest) == DecodePacked(f, items, rest)
    decreases |items|
  {
    if items == [] {
      assert [] + rest == rest;
    } else {
      var init, last := items[..|items| - 1], items[|items| - 1];
      var a, b := EncodePacked(f, init).value, EncodeValue(f, last).value;
      assert a + b + rest == a + (b + rest);
      PackedDecodes(f, init, b + rest);
      PackedValueDecodes(f, last, rest);
      assert items == init + [last];
    }
  }

  lemma PackedValueDecodes(f: Field, v: Value, rest: bytes)
    requires Packable(f.ltype) && EncodeValue(f, v).Some?
    ensures EncodeValue(f, v).value != []
    ensures DecodeValue(f, FreshItem(f), EncodeValue(f, v).value + rest) == Some(Read(v, rest))
  {
    match f.ltype
    case Fixed32 => FixedDecodes(v.n, 4, rest);
    case Fixed64 => FixedDecodes(v.n, 8, rest);
    case Varint => IntegerDecodes(f, v, rest);
    case Uvarint => IntegerDecodes(f, v, rest);
    case Svarint => IntegerDecodes(f, v, rest);
  }

  lemma {:induction false} PackedItemsAreNormal(f: Field, items: seq<Value>)
    requires Packable(f.ltype)
    ensures NormalItems(f, items) == items
    decreases |items|
  {
    if items != [] {
      PackedItemsAreNormal(f, items[..|items| - 1]);
    }
  }

  lemma PackedFieldMoves(fields: seq<Field>, m: Message, i: nat, items: seq<Value>)
    requires DescriptorOk(fields) && i < |fields| && fields[i].htype == Repeated && Packable(fields[i].ltype)
    requires SlotOf(fields, i) < |Defaults(fields)| && NormalUpTo(fields, m, i)[SlotOf(fields, i)] == Rep([])
    requires EncodePacked(fields[i], items).Some? && |EncodePacked(fields[i], items).value| < LIMIT32
    requires |items| <= fields[i].arraySize
    ensures Moves(fields, StateAt(fields, m, i),
                  Key(fields[i].tag, WT_STRING) + LengthPrefixed(EncodePacked(fields[i], items).value),
                  With(fields, m, i, Rep(items)))
  {
    var f, k, st := fields[i], SlotOf(fields, i), StateAt(fields, m, i);
    var b := EncodePacked(f, items).value;
    PackedDecodes(f, items, []);
    assert b + [] == b;
    forall rest: bytes
      ensures DecodeField(f, WT_STRING, st.msg[k], LengthPrefixed(b) + rest) == Some(Read(Rep(items), rest))
    {
      LengthDecodes(b, rest);
    }
    KnownRecordMoves(fields, st, i, WT_STRING, LengthPrefixed(b), Rep(items));
    assert Stored(fields, st, i, Rep(items)) == With(fields, m, i, Rep(items));
  }

  lemma StateMovesOn(fields: seq<Field>, m: Message, i: nat)
    requires i < |fields| && SlotOf(fields, i) < |m| && ShapeOk(fields[i], m[SlotOf(fields, i)])
    ensures SlotOf(fields, i) < |Defaults(fields)|
    ensures !Present(fields[i], m[SlotOf(fields, i)]) ==> StateAt(fields, m, i + 1) == StateAt(fields, m, i)
    ensures Present(fields[i], m[SlotOf(fields, i)]) && fields[i].htype != Required ==>
      StateAt(fields, m, i + 1) == With(fields, m, i, NormalSlot(fields[i], m[SlotOf(fields, i)]))
  {
    DefaultsAt(fields, i, |fields|);
  }

  lemma FieldChain(fields: seq<Field>, m: Message, i: nat, recs: seq<bytes>)
    requires DescriptorOk(fields) && i < |fields| && SlotOf(fields, i) < |m|
    requires MixedField(fields[i], m[SlotOf(fields, i)], recs)
    requires SlotTerminated(fields[i], m[SlotOf(fields, i)])
    ensures Chain(fields, StateAt(fields, m, i), recs, StateAt(fields, m, i + 1))
    decreases m, 6
  {
    var f, slot := fields[i], m[SlotOf(fields, i)];
    StateMovesOn(fields, m, i);
    if Present(f, slot) {
      if slot.Rep? {
        SlotUntouched(fields, m, i, i);
        if Packable(f.ltype) {
          OnlyRecord(recs);
          PackedItemsAreNormal(f, slot.items);
          PackedFieldMoves(fields, m, i, slot.items);
          ChainOne(fields, StateAt(fields, m, i), recs[0], StateAt(fields, m, i + 1));
        } else {
          EntriesChain(fields, m, i, slot.items, recs);
        }
      } else {
        OnlyRecord(recs);
        SingleFieldChain(fields, m, i, recs[0]);
        ChainOne(fields, StateAt(fields, m, i), recs[0], StateAt(fields, m, i + 1));
      }
    }
  }

  lemma ChainOne(fields: seq<Field>, st: State, rec: bytes, st': State)
    requires Moves(fields, st, rec, st')
    ensures Chain(fields, st, [rec], st')
  {
    ChainNext(fields, st, [], st, rec, st');
    assert [] + [rec] == [rec];
  }

  lemma OnlyRecord(recs: seq<bytes>)
    requires |recs| == 1
    ensures recs == [recs[0]] && Flatten(recs) == recs[0]
  {
    assert recs[0] + Flatten([]) == recs[0];
  }

  lemma ChainDecodes(fields: seq<Field>, st: State, recs: seq<bytes>, st': State, rest: bytes)
    requires Chain(fields, st, recs, st')
    ensures DecodeRecords(fields, st, Flatten(recs) + rest) == DecodeRecords(fields, st', rest)
    decreases |recs|
  {
    if recs == [] {
      assert Flatten(recs) + rest == rest;
    } else {
      var init, last := recs[..|recs| - 1], recs[|recs| - 1];
      var mid: State :| Through(fields, st, recs, mid, st');
      assert recs == init + [last];
      FlattenAppend(init, [last]);
      assert Flatten([last]) == last;
      assert Flatten(recs) + rest == Flatten(init) + (last + rest);
      ChainDecodes(fields, st, init, mid, last + rest);
    }
  }

  lemma {:induction false} MessageChain(fields: seq<Field>, m: Message, n: nat, recs: seq<bytes>)
    requires DescriptorOk(fields) && n <= |fields| && MixedUpTo(fields, m, n, recs)
    requires AllTerminated(fields, m, n)
    ensures Chain(fields, State(Defaults(fields), {}), recs, StateAt(fields, m, n))
    decreases m, 7, n
  {
    if n == 0 {
      assert SeenUpTo(fields, 0) == {};
    } else {
      var k: nat :| MixedSplit(fields, m, n, recs, k);
      var a, b := recs[..k], recs[k..];
      assert recs == a + b;
      MessageChain(fields, m, n - 1, a);
      FieldChain(fields, m, n - 1, b);
      ChainJoin(fields, State(Defaults(fields), {}), a, StateAt(fields, m, n - 1), b, StateAt(fields, m, n));
    }
  }

  /** The decoder's way through a mixed message, whatever follows it. */
  lemma MixedLeads(fields: seq<Field>, m: Message, parts: seq<Part>, rest: bytes)
    requires DescriptorOk(fields) && Mixed(fields, m, parts)
    requires AllTerminated(fields, m, |fields|)
    ensures DecodeRecords(fields, State(Defaults(fields), {}), Flatten(AllBytes(parts)) + rest)
      == DecodeRecords(fields, StateAt(fields, m, |fields|), rest)
    decreases m, 8, 0
  {
    var st, st' := State(Defaults(fields), {}), StateAt(fields, m, |fields|);
    MessageChain(fields, m, |fields|, OurRecords(parts));
    MixedChain(fields, st, parts, st');
    ChainDecodes(fields, st, AllBytes(parts), st', rest);
  }

  /**
   The round trip with company: records of unknown fields may stand before, between and after
   a message's own records, at every depth and in any number, and change nothing.
   */
  lemma RoundTripAmongUnknowns(fields: seq<Field>, m: Message, parts: seq<Part>)
    requires DescriptorOk(fields) && Mixed(fields, m, parts)
    requires AllTerminated(fields, m, |fields|)
    ensures Decode(fields, Defaults(fields), Flatten(AllBytes(parts))) == Some(Normal(fields, m))
    decreases m, 8, 1
  {
    MixedLeads(fields, m, parts, []);
    assert Flatten(AllBytes(parts)) + [] == Flatten(AllBytes(parts));
    AllSeen(fields);
  }

  /** What the encoder emits is such a message, without company. */
  lemma RoundTrip(fields: seq<Field>, m: Message)
    requires DescriptorOk(fields) && Encode(fields, m).Some? && LengthsFit(fields, m, |fields|)
    requires AllTerminated(fields, m, |fields|)
    ensures Decode(fields, Defaults(fields), Encode(fields, m).value) == Some(Normal(fields, m))
  {
    MessageIsMixed(fields, m);
    RoundTripAmongUnknowns(fields, m, Alone(RecordsUpTo(fields, m, |fields|).value));
  }

  /** A zero byte ends the message, whatever follows it. */
  lemma RoundTripNullTerminated(fields: seq<Field>, m: Message, junk: bytes)
    requires DescriptorOk(fields) && Encode(fields, m).Some? && LengthsFit(fields, m, |fields|)
    requires AllTerminated(fields, m, |fields|)
    ensures Decode(fields, Defaults(fields), Encode(fields, m).value + ([0] + junk)) == Some(Normal(fields, m))
  {
    MessageIsMixed(fields, m);
    MixedLeads(fields, m, Alone(RecordsUpTo(fields, m, |fields|).value), [0] + junk);
    assert DecodeVarint32([0] + junk) == Some(Read(0, ([0] + junk)[1..]));
    AllSeen(fields);
  }

  lemma AllSeen(fields: seq<Field>)
    ensures RequiredSeen(fields, SeenUpTo(fields, |fields|))
  {
    forall r: nat | r < RequiredBefore(fields, |fields|) && r < MAX_REQUIRED_FIELDS
      ensures r in SeenUpTo(fields, |fields|)
    {
      SeenIsAllSoFar(fields, |fields|, r);
    }
  }

  // ---------------------------------------------------------------------------------------
  // What the rebuilt message holds.

  lemma {:induction false} SlotSettled(fields: seq<Field>, m: Message, i: nat, n: nat)
    requires i < n <= |fields| && fields[i].htype != Oneof && SlotOf(fields, i) < |m|
    ensures SlotOf(fields, i) < |Defaults(fields)|
    ensures NormalUpTo(fields, m, n)[SlotOf(fields, i)] ==
      var slot := m[SlotOf(fields, i)];
      if ShapeOk(fields[i], slot) && Present(fields[i], slot) then NormalSlot(fields[i], slot)
      else DefaultSlot(fields[i])
    decreases n
  {
    DefaultsAt(fields, i, |fields|);
    if i == n - 1 {
      SlotUntouched(fields, m, i, i);
    } else {
      SlotSettled(fields, m, i, n - 1);
      SlotsGrow(fields, i, n - 1);
    }
  }

  /** Fields that are present keep their value, fields that are not go back to their default. */
  lemma PresentKeptAbsentDefault(fields: seq<Field>, m: Message, i: nat)
    requires i < |fields| && fields[i].htype != Oneof && SlotOf(fields, i) < |m|
    ensures SlotOf(fields, i) < |Normal(fields, m)|
    ensures Normal(fields, m)[SlotOf(fields, i)] ==
      var slot := m[SlotOf(fields, i)];
      if ShapeOk(fields[i], slot) && Present(fields[i], slot) then NormalSlot(fields[i], slot)
      else DefaultSlot(fields[i])
  {
    SlotSettled(fields, m, i, |fields|);
  }

  /** A proto3 number loses nothing by being left out: zero comes back as zero. */
  lemma SingularNumberKept(fields: seq<Field>, m: Message, i: nat)
    requires DescriptorOk(fields) && i < |fields| && SlotOf(fields, i) < |m|
    requires fields[i].htype == Optional && !fields[i].hasFlag && Packable(fields[i].ltype)
    requires m[SlotOf(fields, i)].One? && m[SlotOf(fields, i)].v.Num?
    ensures SlotOf(fields, i) < |Normal(fields, m)| && Normal(fields, m)[SlotOf(fields, i)] == m[SlotOf(fields, i)]
  {
    var f, slot := fields[i], m[SlotOf(fields, i)];
    assert f in fields;
    assert ZeroValue(f, slot.v) <==> slot.v.n == 0 by { match f.ltype case _ => }
    assert Present(f, slot) <==> slot.v.n != 0;
    assert DefaultSlot(f) == One(Num(0));
    PresentKeptAbsentDefault(fields, m, i);
  }

  lemma {:induction false} UnionSettled(fields: seq<Field>, m: Message, k: nat, n: nat)
    requires DescriptorOk(fields) && n <= |fields| && k < |m| && m[k].Union? && k < |Defaults(fields)|
    requires Defaults(fields)[k] == UNSET
    ensures (forall i :: 0 <= i < n && SlotOf(fields, i) == k ==> fields[i].tag != m[k].which)
      ==> NormalUpTo(fields, m, n)[k] == UNSET
    ensures forall i ::
      0 <= i < n && SlotOf(fields, i) == k && fields[i].htype == Oneof && fields[i].tag == m[k].which ==>
      NormalUpTo(fields, m, n)[k] == NormalSlot(fields[i], m[k])
  {
    if n > 0 {
      UnionSettled(fields, m, k, n - 1);
    }
  }

  /** A oneof comes back as the member that was set, and unset if its number is that of no member. */
  lemma OneofMemberKept(fields: seq<Field>, m: Message, i: nat)
    requires DescriptorOk(fields) && i < |fields| && fields[i].htype == Oneof
    requires SlotOf(fields, i) < |m| && m[SlotOf(fields, i)].Union?
    ensures SlotOf(fields, i) < |Normal(fields, m)|
    ensures m[SlotOf(fields, i)].which == fields[i].tag ==>
      Normal(fields, m)[SlotOf(fields, i)] == NormalSlot(fields[i], m[SlotOf(fields, i)])
    ensures (forall j :: 0 <= j < |fields| && SlotOf(fields, j) == SlotOf(fields, i) ==>
      fields[j].tag != m[SlotOf(fields, i)].which)
      ==> Normal(fields, m)[SlotOf(fields, i)] == UNSET
  {
    DefaultsAt(fields, i, |fields|);
    UnionSettled(fields, m, SlotOf(fields, i), |fields|);
  }

  // ---------------------------------------------------------------------------------------
  // A string that fills its array to the last byte encodes, but has no room to be decoded into.

  lemma ValueRefused(f: Field, v: Value, dest: Value, rest: bytes)
    requires EncodeValue(f, v).Some? && ValueFits(f, v) && !Terminated(f, v)
    requires f.ltype == Submessage ==> DescriptorOk(f.sub) && dest == Sub(Defaults(f.sub))
    ensures DecodeValue(f, dest, EncodeValue(f, v).value + rest).None?
    decreases v, 4
  {
    if f.ltype == StringField {
      LengthDecodes(v.s, rest);
    } else {
      LengthDecodes(Encode(f.sub, v.m).value, rest);
      MessageRefused(f.sub, v.m);
    }
  }

  lemma RecordRefused(fields: seq<Field>, st: State, i: nat, wt: nat, body: bytes, rest: bytes)
    requires DescriptorOk(fields) && i < |fields| && wt < 8 && SlotOf(fields, i) < |st.msg|
    requires DecodeField(fields[i], wt, st.msg[SlotOf(fields, i)], body + rest).None?
    ensures DecodeRecords(fields, st, Key(fields[i].tag, wt) + body + rest).None?
  {
    var f := fields[i];
    assert f in fields;
    FindsItself(fields, i);
    KeyDecodes(f.tag, wt, body + rest);
    assert Key(f.tag, wt) + body + rest == Key(f.tag, wt) + (body + rest);
    KeySplits(f.tag, wt);
  }

  lemma SingleFieldRefused(fields: seq<Field>, m: Message, i: nat, rest: bytes)
    requires DescriptorOk(fields) && i < |fields| && SlotOf(fields, i) < |m|
    requires var f, slot := fields[i], m[SlotOf(fields, i)];
      && ShapeOk(f, slot) && Present(f, slot) && !slot.Rep? && EncodeValue(f, slot.v).Some?
      && ValueFits(f, slot.v) && !Terminated(f, slot.v)
    ensures var f, slot := fields[i], m[SlotOf(fields, i)];
      DecodeRecords(fields, StateAt(fields, m, i),
        Key(f.tag, WireType(f.ltype)) + EncodeValue(f, slot.v).value + rest).None?
    decreases m[SlotOf(fields, i)], 5
  {
    var f, k, st := fields[i], SlotOf(fields, i), StateAt(fields, m, i);
    assert f in fields;
    if f.htype == Oneof { SlotShaped(fields, m, i, i); } else { SlotUntouched(fields, m, i, i); }
    var dest := if f.htype == Oneof then FreshItem(f) else st.msg[k].v;
    ValueRefused(f, m[k].v, dest, rest);
    RecordRefused(fields, st, i, WireType(f.ltype), EncodeValue(f, m[k].v).value, rest);
  }

  lemma EntriesRefused(fields: seq<Field>, m: Message, i: nat, items: seq<Value>, rest: bytes)
    requires DescriptorOk(fields) && i < |fields| && fields[i].htype == Repeated && !Packable(fields[i].ltype)
    requires SlotOf(fields, i) < |Defaults(fields)| && NormalUpTo(fields, m, i)[SlotOf(fields, i)] == Rep([])
    requires EncodeEntries(fields[i], items).Some? && ItemsFit(fields[i], items)
    requires |items| <= fields[i].arraySize && !ItemsTerminated(fields[i], items)
    ensures DecodeRecords(fields, StateAt(fields, m, i), Flatten(EncodeEntries(fields[i], items).value) + rest).None?
    decreases items, 5
  {
    var f, st := fields[i], StateAt(fields, m, i);
    var init, last := items[..|items| - 1], items[|items| - 1];
    var recs, b := EncodeEntries(f, init).value, EncodeValue(f, last).value;
    var rec := Key(f.tag, WireType(f.ltype)) + b;
    assert f in fields;
    FlattenAppend(recs, [rec]);
    assert Flatten([rec]) == rec;
    assert Flatten(EncodeEntries(f, items).value) + rest == Flatten(recs) + (rec + rest);
    if !ItemsTerminated(f, init) {
      EntriesRefused(fields, m, i, init, rec + rest);
    } else {
      var st' := With(fields, m, i, Rep(NormalItems(f, init)));
      EntriesAreMixed(f, init);
      EntriesChain(fields, m, i, init, recs);
      ChainDecodes(fields, st, recs, st', rec + rest);
      ValueRefused(f, last, FreshItem(f), rest);
      RecordRefused(fields, st', i, WireType(f.ltype), b, rest);
    }
  }

  lemma {:induction false} PackableTerminated(f: Field, items: seq<Value>)
    requires Packable(f.ltype)
    ensures ItemsTerminated(f, items)
    decreases |items|
  {
    if items != [] {
      PackableTerminated(f, items[..|items| - 1]);
    }
  }

  lemma {:induction false} FieldRefused(fields: seq<Field>, m: Message, i: nat, rest: bytes)
    requires DescriptorOk(fields) && i < |fields| && SlotOf(fields, i) < |m|
    requires FieldRecords(fields[i], m[SlotOf(fields, i)]).Some? && SlotFits(fields[i], m[SlotOf(fields, i)])
    requires !SlotTerminated(fields[i], m[SlotOf(fields, i)])
    ensures DecodeRecords(fields, StateAt(fields, m, i),
      Flatten(FieldRecords(fields[i], m[SlotOf(fields, i)]).value) + rest).None?
    decreases m, 6
  {
    var f, slot := fields[i], m[SlotOf(fields, i)];
    StateMovesOn(fields, m, i);
    if slot.Rep? {
      SlotUntouched(fields, m, i, i);
      if Packable(f.ltype) {
        PackableTerminated(f, slot.items);
      } else {
        EntriesRefused(fields, m, i, slot.items, rest);
      }
    } else {
      OnlyRecord(FieldRecords(f, slot).value);
      SingleFieldRefused(fields, m, i, rest);
    }
  }

  /** The bytes of the first `n` fields are those of the fields before the last and those of the last. */
  lemma SplitLast(fields: seq<Field>, m: Message, n: nat, rest: bytes)
    requires 0 < n <= |fields| && RecordsUpTo(fields, m, n).Some?
    ensures RecordsUpTo(fields, m, n - 1).Some? && SlotOf(fields, n - 1) < |m|
    ensures FieldRecords(fields[n - 1], m[SlotOf(fields, n - 1)]).Some?
    ensures var all := Flatten(RecordsUpTo(fields, m, n).value);
      var a := Flatten(RecordsUpTo(fields, m, n - 1).value);
      var b := Flatten(FieldRecords(fields[n - 1], m[SlotOf(fields, n - 1)]).value);
      |all| == |a| + |b| && all + rest == a + (b + rest)
  {
    FlattenAppend(RecordsUpTo(fields, m, n - 1).value, FieldRecords(fields[n - 1], m[SlotOf(fields, n - 1)]).value);
  }

  /** The first field that is not terminated. */
  lemma {:induction false} NotHere(fields: seq<Field>, m: Message, n: nat)
    requires 0 < n <= |fields| && !AllTerminated(fields, m, n) && AllTerminated(fields, m, n - 1)
    ensures SlotOf(fields, n - 1) < |m| && !SlotTerminated(fields[n - 1], m[SlotOf(fields, n - 1)])
  {
  }

  lemma {:induction false} LastRefused(fields: seq<Field>, m: Message, i: nat, rest: bytes)
    requires DescriptorOk(fields) && i < |fields| && SlotOf(fields, i) < |m| && AllTerminated(fields, m, i)
    requires RecordsUpTo(fields, m, i).Some? && FieldRecords(fields[i], m[SlotOf(fields, i)]).Some?
    requires LengthsFit(fields, m, i) && SlotFits(fields[i], m[SlotOf(fields, i)])
    requires !SlotTerminated(fields[i], m[SlotOf(fields, i)])
    ensures DecodeRecords(fields, State(Defaults(fields), {}), Flatten(RecordsUpTo(fields, m, i).value)
              + (Flatten(FieldRecords(fields[i], m[SlotOf(fields, i)]).value) + rest)).None?
    decreases m, 7, 0
  {
    var b := Flatten(FieldRecords(fields[i], m[SlotOf(fields, i)]).value);
    FieldRefused(fields, m, i, rest);
    RecordsAreMixed(fields, m, i);
    MessageChain(fields, m, i, RecordsUpTo(fields, m, i).value);
    ChainDecodes(fields, State(Defaults(fields), {}), RecordsUpTo(fields, m, i).value, StateAt(fields, m, i), b + rest);
  }

  lemma {:induction false} RecordsRefused(fields: seq<Field>, m: Message, n: nat, rest: bytes)
    requires DescriptorOk(fields) && n <= |fields| && RecordsUpTo(fields, m, n).Some?
    requires LengthsFit(fields, m, n) && !AllTerminated(fields, m, n)
    ensures DecodeRecords(fields, State(Defaults(fields), {}), Flatten(RecordsUpTo(fields, m, n).value) + rest).None?
    decreases m, 7, n
  {
    SplitLast(fields, m, n, rest);
    if !AllTerminated(fields, m, n - 1) {
      RecordsRefused(fields, m, n - 1, Flatten(FieldRecords(fields[n - 1], m[SlotOf(fields, n - 1)]).value) + rest);
    } else {
      NotHere(fields, m, n);
      LastRefused(fields, m, n - 1, rest);
    }
  }

  lemma {:induction false} MessageRefused(fields: seq<Field>, m: Message)
    requires DescriptorOk(fields) && Encode(fields, m).Some? && LengthsFit(fields, m, |fields|)
    requires !AllTerminated(fields, m, |fields|)
    ensures Decode(fields, Defaults(fields), Encode(fields, m).value).None?
    decreases m, 8
  {
    RecordsRefused(fields, m, |fields|, []);
    var recs := RecordsUpTo(fields, m, |fields|).value;
    assert Flatten(recs) + [] == Flatten(recs);
  }

  /**
   Exactly when a message that encodes comes back: if and only if every string in a field that is
   present leaves room for its terminator.
   */
  lemma DecodesIffTerminated(fields: seq<Field>, m: Message)
    requires DescriptorOk(fields) && Encode(fields, m).Some? && LengthsFit(fields, m, |fields|)
    ensures Decode(fields, Defaults(fields), Encode(fields, m).value) ==
      if AllTerminated(fields, m, |fields|) then Some(Normal(fields, m)) else None
  {
    if AllTerminated(fields, m, |fields|) {
      RoundTrip(fields, m);
    } else {
      MessageRefused(fields, m);
    }
  }
}
