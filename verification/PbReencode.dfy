/**
 What the decoder makes of any input, the encoder can write, and it decodes to the same message again:
 decoding leaves nothing in a message that its descriptor does not allow.
 */
module PbReencode {
  import opened Wrappers
  import opened Bytes
  import opened PbVarint
  import opened PbSchema
  import opened PbWire
  import opened PbRoundTrip
  import PbKept

  // ---------------------------------------------------------------------------------------
  // Messages that hold only what their descriptor allows.

  predicate ValueTidy(f: Field, v: Value)
    decreases v, 4
  {
    if f.ltype == Submessage then v.Sub? && Tidy(f.sub, v.m) else EncodeValue(f, v).Some? && Terminated(f, v)
  }

  predicate ItemsTidy(f: Field, items: seq<Value>)
    decreases items, 5
  {
    items == [] || (ItemsTidy(f, items[..|items| - 1]) && ValueTidy(f, items[|items| - 1]))
  }

  predicate SlotTidy(f: Field, slot: Slot)
    decreases slot, 6
  {
    ShapeOk(f, slot) &&
    match slot
    case One(v) => ValueTidy(f, v)
    case Opt(has, v) => if has then ValueTidy(f, v) else v == DefaultValue(f)
    case Rep(items) => |items| <= f.arraySize && ItemsTidy(f, items)
    case Union(which, v) => if which == 0 then slot == UNSET else which == f.tag ==> ValueTidy(f, v)
  }

  /** Some member of the oneof in slot `k` has the number `which`. */
  predicate MemberOf(fields: seq<Field>, k: nat, which: nat)
  {
    which == 0 || exists i :: 0 <= i < |fields| && SlotOf(fields, i) == k && fields[i].tag == which
  }

  predicate Tidy(fields: seq<Field>, m: Message)
    decreases m, 8
  {
    && |m| == |Defaults(fields)|
    && forall i :: 0 <= i < |fields| ==>
         && SlotOf(fields, i) < |m| && SlotTidy(fields[i], m[SlotOf(fields, i)])
         && (m[SlotOf(fields, i)].Union? ==> MemberOf(fields, SlotOf(fields, i), m[SlotOf(fields, i)].which))
  }

  /** Every default can itself be encoded and leaves room for a terminator. */
  ghost predicate DefaultsOk(fields: seq<Field>)
    decreases fields
  {
    forall f :: f in fields ==>
      if f.ltype == Submessage then DefaultsOk(f.sub)
      else f.htype == Required || (f.htype == Optional && !f.hasFlag) ==> ValueTidy(f, DefaultValue(f))
  }

  lemma DefaultsAreTidy(fields: seq<Field>)
    requires DescriptorOk(fields) && DefaultsOk(fields)
    ensures Tidy(fields, Defaults(fields))
    decreases fields
  {
    forall i | 0 <= i < |fields|
      ensures SlotOf(fields, i) < |Defaults(fields)| && SlotTidy(fields[i], Defaults(fields)[SlotOf(fields, i)])
      ensures Defaults(fields)[SlotOf(fields, i)].Union? ==> Defaults(fields)[SlotOf(fields, i)].which == 0
    {
      var f := fields[i];
      assert f in fields;
      DefaultsAt(fields, i, |fields|);
      if f.ltype == Submessage {
        DefaultsAreTidy(f.sub);
      }
    }
  }

  // ---------------------------------------------------------------------------------------
  // Decoding keeps to that.

  lemma {:induction false} LittleEndianBound(b: bytes)
    ensures FromLittleEndian(b) < Shl(1, 8 * |b|)
  {
    if b != [] {
      LittleEndianBound(b[1..]);
      Shl8(8 * (|b| - 1));
    }
  }

  lemma FixedFits(b: bytes, k: nat)
    requires (k == 4 || k == 8) && |b| == k
    ensures UnsignedFits(FromLittleEndian(b), k)
  {
    LittleEndianBound(b);
    Shl8(0);
    Shl8(8);
    Shl8(16);
    Shl8(24);
    Shl8(32);
    Shl8(40);
    Shl8(48);
    Shl8(56);
  }

  /** What a submessage's field needs of its descriptor. */
  ghost predicate InnerOk(f: Field)
  {
    f.ltype == Submessage ==> DescriptorOk(f.sub) && DefaultsOk(f.sub)
  }

  lemma DecodedValue(f: Field, dest: Value, b: bytes)
    requires InnerOk(f) && DecodeValue(f, dest, b).Some?
    requires f.ltype == Submessage && dest.Sub? ==> Tidy(f.sub, dest.m)
    ensures ValueTidy(f, DecodeValue(f, dest, b).value.value)
    decreases |b|, 2
  {
    match f.ltype
    case Fixed32 => FixedFits(b[..4], 4);
    case Fixed64 => FixedFits(b[..8], 8);
    case Submessage => DecodedMessage(f.sub, dest.m, DecodeLength(b).value.value);
    case StringField => CutShort(DecodeLength(b).value.value);
    case _ =>
  }

  lemma CutShort(s: bytes)
    ensures |UpToNul(s)| <= |s|
  {
  }

  lemma FreshIsTidy(f: Field)
    requires InnerOk(f)
    ensures f.ltype == Submessage ==> FreshItem(f).Sub? && Tidy(f.sub, FreshItem(f).m)
  {
    if f.ltype == Submessage {
      DefaultsAreTidy(f.sub);
    }
  }

  lemma DecodedPacked(f: Field, items: seq<Value>, b: bytes)
    requires InnerOk(f) && ItemsTidy(f, items) && |items| <= f.arraySize && DecodePacked(f, items, b).Some?
    ensures ItemsTidy(f, DecodePacked(f, items, b).value) && |DecodePacked(f, items, b).value| <= f.arraySize
    decreases |b|, 3
  {
    if b != [] {
      FreshIsTidy(f);
      DecodedValue(f, FreshItem(f), b);
      var r := DecodeValue(f, FreshItem(f), b).value;
      assert (items + [r.value])[..|items|] == items;
      DecodedPacked(f, items + [r.value], r.rest);
    }
  }

  lemma DecodedField(f: Field, wt: nat, slot: Slot, b: bytes)
    requires InnerOk(f) && SlotTidy(f, slot) && f.tag > 0 && DecodeField(f, wt, slot, b).Some?
    ensures SlotTidy(f, DecodeField(f, wt, slot, b).value.value)
    ensures f.htype == Oneof ==> DecodeField(f, wt, slot, b).value.value.which == f.tag
    decreases |b|, 4
  {
    FreshIsTidy(f);
    match f.htype
    case Required => DecodedValue(f, slot.v, b);
    case Optional => DecodedValue(f, slot.v, b);
    case Oneof => DecodedValue(f, FreshItem(f), b);
    case Repeated =>
      if wt == WT_STRING && Packable(f.ltype) {
        DecodedPacked(f, slot.items, DecodeLength(b).value.value);
      } else {
        DecodedValue(f, FreshItem(f), b);
        var v := DecodeValue(f, FreshItem(f), b).value.value;
        assert (slot.items + [v])[..|slot.items|] == slot.items;
      }
  }

  /** A slot of another shape is nobody's but the field's own; the members of a oneof share theirs. */
  lemma StoredTidy(fields: seq<Field>, m: Message, i: nat, slot: Slot)
    requires DescriptorOk(fields) && Tidy(fields, m) && i < |fields| && SlotTidy(fields[i], slot)
    requires fields[i].htype == Oneof ==> slot.which == fields[i].tag
    ensures Tidy(fields, m[SlotOf(fields, i) := slot])
  {
    var k := SlotOf(fields, i);
    var m' := m[k := slot];
    forall j | 0 <= j < |fields|
      ensures SlotTidy(fields[j], m'[SlotOf(fields, j)])
      ensures m'[SlotOf(fields, j)].Union? ==> MemberOf(fields, SlotOf(fields, j), m'[SlotOf(fields, j)].which)
    {
      if SlotOf(fields, j) == k && j != i {
        SlotsExclusive(fields, i, j);
      }
    }
  }

  lemma DecodedRecord(fields: seq<Field>, st: State, tag: nat, wt: nat, b: bytes)
    requires DescriptorOk(fields) && DefaultsOk(fields) && Tidy(fields, st.msg)
    requires DecodeRecord(fields, st, tag, wt, b).Some?
    ensures Tidy(fields, DecodeRecord(fields, st, tag, wt, b).value.value.msg)
    decreases |b|, 5
  {
    match Find(fields, tag)
    case None =>
    case Some(i) =>
      assert fields[i] in fields;
      DecodedField(fields[i], wt, st.msg[SlotOf(fields, i)], b);
      StoredTidy(fields, st.msg, i, DecodeField(fields[i], wt, st.msg[SlotOf(fields, i)], b).value.value);
  }

  lemma DecodedRecords(fields: seq<Field>, st: State, b: bytes)
    requires DescriptorOk(fields) && DefaultsOk(fields) && Tidy(fields, st.msg) && DecodeRecords(fields, st, b).Some?
    ensures Tidy(fields, DecodeRecords(fields, st, b).value.msg)
    decreases |b|, 0
  {
    if b != [] && DecodeVarint32(b).value.value != 0 {
      var r := DecodeVarint32(b).value;
      DecodedRecord(fields, st, r.value / 8, r.value % 8, r.rest);
      var next := DecodeRecord(fields, st, r.value / 8, r.value % 8, r.rest).value;
      DecodedRecords(fields, next.value, next.rest);
    }
  }

  /** Whatever the input, a message that decodes holds only what its descriptor allows. */
  lemma DecodedMessage(fields: seq<Field>, m: Message, b: bytes)
    requires DescriptorOk(fields) && DefaultsOk(fields) && Tidy(fields, m) && Decode(fields, m, b).Some?
    ensures Tidy(fields, Decode(fields, m, b).value)
    decreases |b|, 1
  {
    DecodedRecords(fields, State(m, {}), b);
  }

  // ---------------------------------------------------------------------------------------
  // Such a message is in its normal form ...

  lemma ValueIsNormal(f: Field, v: Value)
    requires InnerOk(f) && ValueTidy(f, v)
    ensures NormalValue(f, v) == v && Terminated(f, v)
    decreases v, 4
  {
    if f.ltype == Submessage {
      TidyIsNormal(f.sub, v.m);
    }
  }

  lemma ItemsAreNormal(f: Field, items: seq<Value>)
    requires InnerOk(f) && ItemsTidy(f, items)
    ensures NormalItems(f, items) == items && ItemsTerminated(f, items)
    decreases items, 5
  {
    if items != [] {
      ItemsAreNormal(f, items[..|items| - 1]);
      ValueIsNormal(f, items[|items| - 1]);
    }
  }

  lemma SlotIsNormal(f: Field, slot: Slot)
    requires InnerOk(f) && f.tag > 0 && SlotTidy(f, slot)
    requires f.htype == Optional && !f.hasFlag ==> f.init.None?
    ensures Present(f, slot) ==> NormalSlot(f, slot) == slot
    ensures !Present(f, slot) && f.htype != Oneof ==> slot == DefaultSlot(f)
    ensures SlotTerminated(f, slot)
    decreases slot, 6
  {
    match slot
    case One(v) =>
      ValueIsNormal(f, v);
      if f.htype == Optional {
        PbKept.SingularWritten(f, v);
        if ZeroValue(f, v) {
          ZeroIsDefaultValue(f, v);
        }
      }
    case Opt(has, v) => if has { ValueIsNormal(f, v); }
    case Rep(items) => ItemsAreNormal(f, items);
    case Union(which, v) => if which == f.tag { ValueIsNormal(f, v); }
  }

  lemma ZeroIsDefaultValue(f: Field, v: Value)
    requires InnerOk(f) && ValueTidy(f, v) && ZeroValue(f, v) && f.init.None? && NormalValue(f, v) == v
    ensures v == DefaultValue(f)
  {
    if f.ltype == Submessage {
      PbKept.ZeroIsDefault(f.sub, v.m, |f.sub|);
    } else if f.ltype == FixedLengthBytes {
      assert v.b == Zeros(0);
    }
  }

  /** Every slot is some field's. */
  lemma {:induction false} SlotHasField(fields: seq<Field>, n: nat, k: nat) returns (i: nat)
    requires n <= |fields| && k < |DefaultsUpTo(fields, n)|
    ensures i < n && SlotOf(fields, i) == k
  {
    if k < |DefaultsUpTo(fields, n - 1)| {
      i := SlotHasField(fields, n - 1, k);
    } else {
      i := n - 1;
    }
  }

  lemma SlotComesBack(fields: seq<Field>, m: Message, i: nat)
    requires DescriptorOk(fields) && DefaultsOk(fields) && Tidy(fields, m) && i < |fields|
    ensures Normal(fields, m)[SlotOf(fields, i)] == m[SlotOf(fields, i)]
    decreases m, 7
  {
    var k := SlotOf(fields, i);
    assert fields[i] in fields;
    SlotIsNormal(fields[i], m[k]);
    if fields[i].htype != Oneof {
      PresentKeptAbsentDefault(fields, m, i);
    } else if m[k].which == 0 {
      forall j | 0 <= j < |fields| && SlotOf(fields, j) == k ensures fields[j].tag != 0 {
        assert fields[j] in fields;
      }
      OneofMemberKept(fields, m, i);
    } else {
      var j :| 0 <= j < |fields| && SlotOf(fields, j) == k && fields[j].tag == m[k].which;
      assert fields[j] in fields;
      if j != i { SlotsExclusive(fields, i, j); }
      SlotIsNormal(fields[j], m[k]);
      OneofMemberKept(fields, m, j);
    }
  }

  lemma TidyIsNormal(fields: seq<Field>, m: Message)
    requires DescriptorOk(fields) && DefaultsOk(fields) && Tidy(fields, m)
    ensures Normal(fields, m) == m && AllTerminated(fields, m, |fields|)
    decreases m, 8
  {
    forall k | 0 <= k < |m| ensures Normal(fields, m)[k] == m[k] {
      var i := SlotHasField(fields, |fields|, k);
      SlotComesBack(fields, m, i);
    }
    TidyIsTerminated(fields, m, |fields|);
  }

  lemma {:induction false} TidyIsTerminated(fields: seq<Field>, m: Message, n: nat)
    requires DescriptorOk(fields) && DefaultsOk(fields) && Tidy(fields, m) && n <= |fields|
    ensures AllTerminated(fields, m, n)
    decreases m, 7, n
  {
    if n > 0 {
      TidyIsTerminated(fields, m, n - 1);
      assert fields[n - 1] in fields;
      SlotIsNormal(fields[n - 1], m[SlotOf(fields, n - 1)]);
    }
  }

  // ---------------------------------------------------------------------------------------
  // ... and encodes.

  lemma ValueEncodes(f: Field, v: Value)
    requires InnerOk(f) && ValueTidy(f, v)
    ensures EncodeValue(f, v).Some?
    decreases v, 4
  {
    if f.ltype == Submessage {
      TidyEncodes(f.sub, v.m);
    }
  }

  lemma ItemsEncode(f: Field, items: seq<Value>)
    requires InnerOk(f) && ItemsTidy(f, items)
    ensures EncodePacked(f, items).Some? && EncodeEntries(f, items).Some?
    decreases items, 5
  {
    if items != [] {
      ItemsEncode(f, items[..|items| - 1]);
      ValueEncodes(f, items[|items| - 1]);
    }
  }

  lemma SlotEncodes(f: Field, slot: Slot)
    requires InnerOk(f) && SlotTidy(f, slot) && f.tag > 0
    ensures FieldRecords(f, slot).Some?
    decreases slot, 6
  {
    if Present(f, slot) {
      match slot
      case One(v) => ValueEncodes(f, v);
      case Opt(_, v) => ValueEncodes(f, v);
      case Rep(items) => ItemsEncode(f, items);
      case Union(_, v) => ValueEncodes(f, v);
    }
  }

  lemma {:induction false} RecordsEncode(fields: seq<Field>, m: Message, n: nat)
    requires DescriptorOk(fields) && DefaultsOk(fields) && Tidy(fields, m) && n <= |fields|
    ensures RecordsUpTo(fields, m, n).Some?
    decreases m, 7, n
  {
    if n > 0 {
      RecordsEncode(fields, m, n - 1);
      assert fields[n - 1] in fields;
      SlotEncodes(fields[n - 1], m[SlotOf(fields, n - 1)]);
    }
  }

  lemma TidyEncodes(fields: seq<Field>, m: Message)
    requires DescriptorOk(fields) && DefaultsOk(fields) && Tidy(fields, m)
    ensures Encode(fields, m).Some?
    decreases m, 8
  {
    RecordsEncode(fields, m, |fields|);
  }

  /**
   Decoding and encoding again is stable on every input, canonical or not: whatever message an input
   decodes to can be encoded, and what it encodes to decodes to the very same message.
   */
  lemma DecodedComesBack(fields: seq<Field>, b: bytes)
    requires DescriptorOk(fields) && DefaultsOk(fields) && Decode(fields, Defaults(fields), b).Some?
    ensures var m := Decode(fields, Defaults(fields), b).value;
      && Encode(fields, m).Some?
      && (LengthsFit(fields, m, |fields|) ==> Decode(fields, Defaults(fields), Encode(fields, m).value) == Some(m))
  {
    var m := Decode(fields, Defaults(fields), b).value;
    DefaultsAreTidy(fields);
    DecodedMessage(fields, Defaults(fields), b);
    TidyEncodes(fields, m);
    TidyIsNormal(fields, m);
    if LengthsFit(fields, m, |fields|) {
      RoundTrip(fields, m);
    }
  }
}
