/**
 Messages that come in pieces: decoding two inputs one after the other into one message is decoding them
 joined together, and a message inside a message merges in the same way.
 */
module PbMerge {
  import opened Wrappers
  import opened Bytes
  import opened PbVarint
  import opened PbSchema
  import opened PbWire
  import PbRoundTrip

  // ---------------------------------------------------------------------------------------
  // The decoder looks no further than what it reads.

  lemma {:induction false} Varint64Extends(b: bytes, bitpos: nat, word: nat, more: bytes)
    requires DecodeVarint64From(b, bitpos, word).Some?
    ensures DecodeVarint64From(b + more, bitpos, word) ==
      var r := DecodeVarint64From(b, bitpos, word).value; Some(Read(r.value, r.rest + more))
    decreases |b|
  {
    assert (b + more)[1..] == b[1..] + more;
    if b[0] >= 0x80 {
      Varint64Extends(b[1..], (bitpos + 7) % 0x100, Gather(word, b[0], bitpos, LIMIT64), more);
    }
  }

  lemma Varint32Extends(b: bytes, more: bytes)
    requires DecodeVarint32(b).Some?
    ensures DecodeVarint32(b + more) == var r := DecodeVarint32(b).value; Some(Read(r.value, r.rest + more))
  {
    assert (b + more)[1..] == b[1..] + more;
    if b[0] >= 0x80 {
      PbRoundTrip.Varint32Extends(b[1..], 7, b[0] % 0x80, more);
    }
  }

  lemma FixedExtends(b: bytes, k: nat, more: bytes)
    requires DecodeFixed(b, k).Some?
    ensures DecodeFixed(b + more, k) == var r := DecodeFixed(b, k).value; Some(Read(r.value, r.rest + more))
  {
    assert (b + more)[..k] == b[..k] && (b + more)[k..] == b[k..] + more;
  }

  lemma ValueExtends(f: Field, dest: Value, b: bytes, more: bytes)
    requires DecodeValue(f, dest, b).Some?
    ensures DecodeValue(f, dest, b + more) == var r := DecodeValue(f, dest, b).value; Some(Read(r.value, r.rest + more))
  {
    match f.ltype
    case Fixed32 => FixedExtends(b, 4, more);
    case Fixed64 => FixedExtends(b, 8, more);
    case BytesField => PbRoundTrip.LengthExtends(b, more);
    case StringField => PbRoundTrip.LengthExtends(b, more);
    case FixedLengthBytes => PbRoundTrip.LengthExtends(b, more);
    case Submessage => PbRoundTrip.LengthExtends(b, more);
    case _ => Varint64Extends(b, 0, 0, more);
  }

  lemma FieldExtends(f: Field, wt: nat, slot: Slot, b: bytes, more: bytes)
    requires DecodeField(f, wt, slot, b).Some?
    ensures DecodeField(f, wt, slot, b + more) ==
      var r := DecodeField(f, wt, slot, b).value; Some(Read(r.value, r.rest + more))
  {
    match f.htype
    case Required => ValueExtends(f, slot.v, b, more);
    case Optional => ValueExtends(f, slot.v, b, more);
    case Oneof => ValueExtends(f, FreshItem(f), b, more);
    case Repeated =>
      if wt == WT_STRING && Packable(f.ltype) {
        PbRoundTrip.LengthExtends(b, more);
      } else {
        ValueExtends(f, FreshItem(f), b, more);
      }
  }

  lemma {:induction false} SkipVarintExtends(b: bytes, more: bytes)
    requires SkipVarint(b).Some?
    ensures SkipVarint(b + more) == Some(SkipVarint(b).value + more)
  {
    PbRoundTrip.SkipVarintExtends(b, more);
  }

  lemma SkipFieldExtends(wt: nat, b: bytes, more: bytes)
    requires SkipField(wt, b).Some?
    ensures SkipField(wt, b + more) == Some(SkipField(wt, b).value + more)
  {
    if wt == WT_VARINT {
      SkipVarintExtends(b, more);
    } else if wt == WT_STRING {
      PbRoundTrip.LengthExtends(b, more);
    } else if wt == WT_64BIT {
      assert (b + more)[8..] == b[8..] + more;
    } else {
      assert (b + more)[4..] == b[4..] + more;
    }
  }

  lemma RecordExtends(fields: seq<Field>, st: State, tag: nat, wt: nat, b: bytes, more: bytes)
    requires DecodeRecord(fields, st, tag, wt, b).Some?
    ensures DecodeRecord(fields, st, tag, wt, b + more) ==
      var r := DecodeRecord(fields, st, tag, wt, b).value; Some(Read(r.value, r.rest + more))
  {
    match Find(fields, tag)
    case None => SkipFieldExtends(wt, b, more);
    case Some(i) => FieldExtends(fields[i], wt, st.msg[SlotOf(fields, i)], b, more);
  }

  // ---------------------------------------------------------------------------------------
  // One input after the other.

  /** The whole input is read: no key of zero ends it before. */
  predicate ReadsThrough(fields: seq<Field>, st: State, b: bytes)
    decreases |b|
  {
    b == [] ||
    (match DecodeVarint32(b)
     case None => false
     case Some(Read(key, rest)) =>
       key != 0 &&
       match DecodeRecord(fields, st, key / 8, key % 8, rest)
       case None => false
       case Some(Read(next, rest')) => ReadsThrough(fields, next, rest'))
  }

  lemma {:induction false} RecordsJoin(fields: seq<Field>, st: State, a: bytes, b: bytes)
    requires ReadsThrough(fields, st, a)
    ensures DecodeRecords(fields, st, a).Some?
    ensures DecodeRecords(fields, st, a + b) == DecodeRecords(fields, DecodeRecords(fields, st, a).value, b)
    decreases |a|
  {
    if a == [] {
      assert a + b == b;
    } else {
      var r := DecodeVarint32(a).value;
      var next := DecodeRecord(fields, st, r.value / 8, r.value % 8, r.rest).value;
      Varint32Extends(a, b);
      RecordExtends(fields, st, r.value / 8, r.value % 8, r.rest, b);
      RecordsJoin(fields, next.value, next.rest, b);
    }
  }

  /** Which required fields have been seen before does not matter to the message. */
  lemma {:induction false} SeenAdds(fields: seq<Field>, m: Message, seen: set<nat>, more: set<nat>, b: bytes)
    ensures var x, y := DecodeRecords(fields, State(m, seen), b), DecodeRecords(fields, State(m, seen + more), b);
      if x.None? then y.None? else y == Some(State(x.value.msg, x.value.seen + more))
    decreases |b|
  {
    if b != [] && DecodeVarint32(b).Some? && DecodeVarint32(b).value.value != 0 {
      var r := DecodeVarint32(b).value;
      var next := DecodeRecord(fields, State(m, seen), r.value / 8, r.value % 8, r.rest);
      OneRecordAdds(fields, m, seen, more, r.value / 8, r.value % 8, r.rest);
      if next.Some? {
        SeenAdds(fields, next.value.value.msg, next.value.value.seen, more, next.value.rest);
      }
    }
  }

  lemma OneRecordAdds(fields: seq<Field>, m: Message, seen: set<nat>, more: set<nat>, tag: nat, wt: nat, b: bytes)
    ensures var x, y := DecodeRecord(fields, State(m, seen), tag, wt, b),
                        DecodeRecord(fields, State(m, seen + more), tag, wt, b);
      if x.None? then y.None?
      else y == Some(Read(State(x.value.value.msg, x.value.value.seen + more), x.value.rest))
  {
    var x := DecodeRecord(fields, State(m, seen), tag, wt, b);
    if x.Some? && Find(fields, tag).Some? {
      var r := RequiredBefore(fields, Find(fields, tag).value);
      assert seen + {r} + more == seen + more + {r};
    }
  }

  /**
   Decoding into a message in two steps, the first of which reads all of its input, is decoding the two
   inputs as one.
   */
  lemma DecodingJoins(fields: seq<Field>, m: Message, a: bytes, b: bytes)
    requires ReadsThrough(fields, State(m, {}), a)
    requires Decode(fields, m, a).Some? && Decode(fields, Decode(fields, m, a).value, b).Some?
    ensures Decode(fields, m, a + b) == Decode(fields, Decode(fields, m, a).value, b)
  {
    RecordsJoin(fields, State(m, {}), a, b);
    var mid := DecodeRecords(fields, State(m, {}), a).value;
    SeenAdds(fields, mid.msg, {}, mid.seen, b);
    assert {} + mid.seen == mid.seen;
  }

  /**
   A message inside a message, in a field of its own, may come in two records: the second is merged into
   what the first left, as if one record had held both.
   */
  lemma SubmessageMerges(f: Field, wt: nat, slot: Slot, a: bytes, b: bytes, rest: bytes)
    requires f.ltype == Submessage && (f.htype == Required || f.htype == Optional) && ShapeOk(f, slot) && slot.v.Sub?
    requires |a| + |b| < LIMIT32 && ReadsThrough(f.sub, State(slot.v.m, {}), a)
    requires Decode(f.sub, slot.v.m, a).Some? && Decode(f.sub, Decode(f.sub, slot.v.m, a).value, b).Some?
    ensures DecodeField(f, wt, slot, LengthPrefixed(a) + rest).Some?
    ensures var first := DecodeField(f, wt, slot, LengthPrefixed(a) + rest).value;
      && first.rest == rest
      && DecodeField(f, wt, first.value, LengthPrefixed(b) + rest).Some?
      && DecodeField(f, wt, first.value, LengthPrefixed(b) + rest)
           == DecodeField(f, wt, slot, LengthPrefixed(a + b) + rest)
  {
    PbRoundTrip.LengthDecodes(a, rest);
    PbRoundTrip.LengthDecodes(b, rest);
    PbRoundTrip.LengthDecodes(a + b, rest);
    DecodingJoins(f.sub, slot.v.m, a, b);
  }

  /** An entry of an array and a member of a oneof start afresh instead: what was there is not merged into. */
  lemma OthersStartAfresh(f: Field, wt: nat, slot: Slot, a: bytes, rest: bytes)
    requires f.ltype == Submessage && ShapeOk(f, slot) && |a| < LIMIT32
    ensures f.htype == Repeated && |slot.items| < f.arraySize ==>
      DecodeField(f, wt, slot, LengthPrefixed(a) + rest) ==
        (match Decode(f.sub, Defaults(f.sub), a)
         case Some(m) => Some(Read(Rep(slot.items + [Sub(m)]), rest))
         case None => None)
    ensures f.htype == Oneof ==>
      DecodeField(f, wt, slot, LengthPrefixed(a) + rest) ==
        (match Decode(f.sub, Defaults(f.sub), a)
         case Some(m) => Some(Read(Union(f.tag, Sub(m)), rest))
         case None => None)
  {
    PbRoundTrip.LengthDecodes(a, rest);
  }

  /** The last record of a number, string or run of bytes counts. */
  lemma LastOneCounts(f: Field, wt: nat, slot: Slot, b: bytes)
    requires f.ltype != Submessage && f.htype != Repeated && ShapeOk(f, slot)
    ensures forall other: Slot :: ShapeOk(f, other) ==> DecodeField(f, wt, other, b) == DecodeField(f, wt, slot, b)
  {
    forall other: Slot | ShapeOk(f, other) ensures DecodeField(f, wt, other, b) == DecodeField(f, wt, slot, b) {
      if f.htype != Oneof {
        assert DecodeValue(f, other.v, b) == DecodeValue(f, slot.v, b);
      }
    }
  }
}
