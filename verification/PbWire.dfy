/**
 The wire form of a message, as functions: what nanopb's encoder emits and what its decoder makes
 of any input. The encoding of a message is a list of records, one for each key written.
 */
module PbWire {
  import opened Wrappers
  import opened Bytes
  import opened PbVarint
  import opened PbSchema

  const WT_VARINT := 0
  const WT_64BIT := 1
  const WT_STRING := 2
  const WT_32BIT := 5

  function WireType(l: LType): (wt: nat)
    ensures wt < 8
  {
    match l
    case Varint => WT_VARINT
    case Uvarint => WT_VARINT
    case Svarint => WT_VARINT
    case Fixed32 => WT_32BIT
    case Fixed64 => WT_64BIT
    case _ => WT_STRING
  }

  function Key(tag: nat, wt: nat): bytes
  {
    EncodeVarint(8 * tag + wt)
  }

  /** Half the range of a signed integer of `size` bytes; zero for sizes that do not exist. */
  function HalfRange(size: nat): nat
  {
    if size == 1 then 0x80 else if size == 2 then 0x8000 else if size == 4 then 0x8000_0000
    else if size == 8 then 0x8000_0000_0000_0000 else 0
  }

  predicate SignedFits(n: int, size: nat)
  {
    -(HalfRange(size) as int) <= n < HalfRange(size)
  }

  predicate UnsignedFits(n: int, size: nat)
  {
    0 <= n < 2 * HalfRange(size)
  }

  /** `k` bytes, the lowest first. */
  function LittleEndian(n: nat, k: nat): (b: bytes)
    ensures |b| == k
  {
    if k == 0 then [] else [n % 0x100] + LittleEndian(n / 0x100, k - 1)
  }

  function FromLittleEndian(b: bytes): nat
  {
    if b == [] then 0 else b[0] + 0x100 * FromLittleEndian(b[1..])
  }

  function LengthPrefixed(b: bytes): bytes
  {
    EncodeVarint(|b|) + b
  }

  // ---------------------------------------------------------------------------------------
  // Encoding. None where the encoder fails: a size that does not exist, a value its field cannot
  // hold, too many array entries.

  function EncodeValue(f: Field, v: Value): Option<bytes>
    decreases v, 4
  {
    match (f.ltype, v)
    case (Varint, Num(n)) => if SignedFits(n, f.dataSize) then Some(EncodeVarint(n % LIMIT64)) else None
    case (Uvarint, Num(n)) => if UnsignedFits(n, f.dataSize) then Some(EncodeVarint(n)) else None
    case (Svarint, Num(n)) => if SignedFits(n, f.dataSize) then Some(EncodeVarint(ZigZag(n))) else None
    case (Fixed32, Num(n)) => if UnsignedFits(n, 4) then Some(LittleEndian(n, 4)) else None
    case (Fixed64, Num(n)) => if UnsignedFits(n, 8) then Some(LittleEndian(n, 8)) else None
    case (BytesField, Octets(b)) => if |b| + BYTES_HEADER <= f.dataSize then Some(LengthPrefixed(b)) else None
    case (StringField, Text(s)) => if |s| <= f.dataSize && 0 !in s then Some(LengthPrefixed(s)) else None
    case (FixedLengthBytes, Octets(b)) => if |b| == f.dataSize then Some(LengthPrefixed(b)) else None
    case (Submessage, Sub(m)) =>
      (match Encode(f.sub, m)
       case Some(b) => Some(LengthPrefixed(b))
       case None => None)
    case _ => None
  }

  /** The entries of a packed array, end to end. */
  function EncodePacked(f: Field, items: seq<Value>): Option<bytes>
    decreases items, 5
  {
    if items == [] then Some([]) else
    match (EncodePacked(f, items[..|items| - 1]), EncodeValue(f, items[|items| - 1]))
    case (Some(a), Some(b)) => Some(a + b)
    case _ => None
  }

  /** One record for each entry of an array that cannot be packed. */
  function EncodeEntries(f: Field, items: seq<Value>): Option<seq<bytes>>
    decreases items, 5
  {
    if items == [] then Some([]) else
    match (EncodeEntries(f, items[..|items| - 1]), EncodeValue(f, items[|items| - 1]))
    case (Some(a), Some(b)) => Some(a + [Key(f.tag, WireType(f.ltype)) + b])
    case _ => None
  }

  /** A field at its zero value is left out in proto3; a message is zero when all its fields are. */
  predicate AtDefault(f: Field, slot: Slot)
    decreases slot, 6
  {
    match (f.htype, slot)
    case (Repeated, Rep(items)) => items == []
    case (Oneof, Union(which, _)) => which == 0
    case (Optional, Opt(has, _)) => f.hasFlag && !has
    case (Optional, One(v)) => !f.hasFlag && ZeroValue(f, v)
    case _ => false
  }

  predicate ZeroValue(f: Field, v: Value)
    decreases v, 8
  {
    match (f.ltype, v)
    case (BytesField, Octets(b)) => b == []
    case (StringField, Text(s)) => s == []
    case (FixedLengthBytes, _) => f.dataSize == 0
    case (Submessage, Sub(m)) => AllAtDefault(f.sub, m, |f.sub|)
    case (_, Num(n)) => n == 0
    case _ => false
  }

  predicate AllAtDefault(fields: seq<Field>, m: Message, n: nat)
    requires n <= |fields|
    decreases m, 7, n
  {
    n == 0 ||
    (AllAtDefault(fields, m, n - 1) && SlotOf(fields, n - 1) < |m|
      && AtDefault(fields[n - 1], m[SlotOf(fields, n - 1)]))
  }

  /** Whether a field is written at all. */
  predicate Present(f: Field, slot: Slot)
  {
    match (f.htype, slot)
    case (Required, One(_)) => true
    case (Optional, Opt(has, _)) => f.hasFlag && has
    case (Optional, One(_)) => !f.hasFlag && !AtDefault(f, slot)
    case (Repeated, Rep(items)) => items != []
    case (Oneof, Union(which, _)) => which == f.tag
    case _ => false
  }

  /** The slot has the shape the field calls for. */
  predicate ShapeOk(f: Field, slot: Slot)
  {
    match f.htype
    case Required => slot.One?
    case Optional => if f.hasFlag then slot.Opt? else slot.One?
    case Repeated => slot.Rep?
    case Oneof => slot.Union?
  }

  /** The records of one field. */
  function FieldRecords(f: Field, slot: Slot): Option<seq<bytes>>
    decreases slot, 6
  {
    if !ShapeOk(f, slot) then None
    else if !Present(f, slot) then Some([])
    else match slot
      case Rep(items) =>
        if |items| > f.arraySize then None
        else if Packable(f.ltype) then
          (match EncodePacked(f, items)
           case Some(b) => Some([Key(f.tag, WT_STRING) + LengthPrefixed(b)])
           case None => None)
        else EncodeEntries(f, items)
      case _ =>
        (match EncodeValue(f, slot.v)
         case Some(b) => Some([Key(f.tag, WireType(f.ltype)) + b])
         case None => None)
  }

  /** The records of the first `n` fields, in descriptor order. */
  function RecordsUpTo(fields: seq<Field>, m: Message, n: nat): Option<seq<bytes>>
    requires n <= |fields|
    decreases m, 7, n
  {
    if n == 0 then Some([])
    else if SlotOf(fields, n - 1) >= |m| then None
    else match (RecordsUpTo(fields, m, n - 1), FieldRecords(fields[n - 1], m[SlotOf(fields, n - 1)]))
      case (Some(a), Some(b)) => Some(a + b)
      case _ => None
  }

  function Encode(fields: seq<Field>, m: Message): Option<bytes>
    decreases m, 8
  {
    match RecordsUpTo(fields, m, |fields|)
    case Some(recs) => Some(Flatten(recs))
    case None => None
  }

  // ---------------------------------------------------------------------------------------
  // Decoding.

  function AsSigned(v: nat, size: nat): int
  {
    if v >= HalfRange(size) then v - 2 * HalfRange(size) else v
  }

  function DecodeFixed(b: bytes, k: nat): (r: Option<Read<Value>>)
    ensures r.Some? ==> |r.value.rest| + k == |b|
  {
    if |b| < k then None else Some(Read(Num(FromLittleEndian(b[..k])), b[k..]))
  }

  /** A length-prefixed run of bytes. */
  function DecodeLength(b: bytes): (r: Option<Read<bytes>>)
    ensures r.Some? ==> |r.value.value| + |r.value.rest| < |b|
  {
    match DecodeVarint32(b)
    case None => None
    case Some(Read(size, rest)) => if |rest| < size then None else Some(Read(rest[..size], rest[size..]))
  }

  function DecodeInteger(f: Field, v: nat): Option<Value>
    requires f.ltype == Varint || f.ltype == Uvarint || f.ltype == Svarint
  {
    match f.ltype
    case Varint =>
      // Fields of 32 bits or fewer are cast to int32 first, so that either form of a negative number is taken.
      var n := if f.dataSize == 8 then AsSigned(v, 8) else AsSigned(v % LIMIT32, 4);
      if SignedFits(n, f.dataSize) then Some(Num(n)) else None
    case Uvarint => if UnsignedFits(v, f.dataSize) then Some(Num(v)) else None
    case Svarint => if SignedFits(UnZigZag(v), f.dataSize) then Some(Num(UnZigZag(v))) else None
  }

  /** One value into a destination that already holds `dest`, which matters only for a message. */
  function DecodeValue(f: Field, dest: Value, b: bytes): (r: Option<Read<Value>>)
    ensures r.Some? ==> |r.value.rest| < |b|
    decreases |b|, 2
  {
    match f.ltype
    case Fixed32 => DecodeFixed(b, 4)
    case Fixed64 => DecodeFixed(b, 8)
    case BytesField =>
      (match DecodeLength(b)
       case Some(Read(s, rest)) => if |s| + BYTES_HEADER > f.dataSize then None else Some(Read(Octets(s), rest))
       case None => None)
    case StringField =>
      // Room is needed for the terminator too.
      (match DecodeLength(b)
       case Some(Read(s, rest)) => if |s| + 1 > f.dataSize then None else Some(Read(Text(UpToNul(s)), rest))
       case None => None)
    case FixedLengthBytes =>
      (match DecodeLength(b)
       case Some(Read(s, rest)) =>
         if s == [] then Some(Read(Octets(Zeros(f.dataSize)), rest))
         else if |s| != f.dataSize then None else Some(Read(Octets(s), rest))
       case None => None)
    case Submessage =>
      (match DecodeLength(b)
       case Some(Read(s, rest)) =>
         if !dest.Sub? then None else
         (match Decode(f.sub, dest.m, s)
          case Some(m) => Some(Read(Sub(m), rest))
          case None => None)
       case None => None)
    case _ =>
      (match DecodeVarint64(b)
       case Some(Read(v, rest)) =>
         (match DecodeInteger(f, v)
          case Some(n) => Some(Read(n, rest))
          case None => None)
       case None => None)
  }

  /** A string in memory ends at its first zero byte. */
  function UpToNul(s: bytes): (r: bytes)
    ensures 0 !in r && (0 !in s ==> r == s)
  {
    if s == [] || s[0] == 0 then [] else [s[0]] + UpToNul(s[1..])
  }

  function FreshItem(f: Field): Value
  {
    if f.ltype == Submessage then Sub(Defaults(f.sub)) else Num(0)
  }

  /** The entries of a packed array, onto those already present. */
  function DecodePacked(f: Field, items: seq<Value>, b: bytes): Option<seq<Value>>
    decreases |b|, 3
  {
    if b == [] then Some(items)
    else if |items| >= f.arraySize then None
    else match DecodeValue(f, FreshItem(f), b)
      case Some(Read(v, rest)) => DecodePacked(f, items + [v], rest)
      case None => None
  }

  /** One record of a known field, key already read, into the field's slot. */
  function DecodeField(f: Field, wt: nat, slot: Slot, b: bytes): (r: Option<Read<Slot>>)
    ensures r.Some? ==> |r.value.rest| < |b|
    decreases |b|, 4
  {
    if !ShapeOk(f, slot) then None else
    match f.htype
    case Required =>
      (match DecodeValue(f, slot.v, b)
       case Some(Read(v, rest)) => Some(Read(One(v), rest))
       case None => None)
    case Optional =>
      (match DecodeValue(f, slot.v, b)
       case Some(Read(v, rest)) => Some(Read(if f.hasFlag then Opt(true, v) else One(v), rest))
       case None => None)
    case Repeated =>
      if wt == WT_STRING && Packable(f.ltype) then
        (match DecodeLength(b)
         case None => None
         case Some(Read(s, rest)) =>
           (match DecodePacked(f, slot.items, s)
            case Some(items) => Some(Read(Rep(items), rest))
            case None => None))
      else if |slot.items| >= f.arraySize then None
      else
        (match DecodeValue(f, FreshItem(f), b)
         case Some(Read(v, rest)) => Some(Read(Rep(slot.items + [v]), rest))
         case None => None)
    case Oneof =>
      (match DecodeValue(f, FreshItem(f), b)
       case Some(Read(v, rest)) => Some(Read(Union(f.tag, v), rest))
       case None => None)
  }

  function SkipVarint(b: bytes): (r: Option<bytes>)
    ensures r.Some? ==> |r.value| < |b|
  {
    if b == [] then None else if b[0] >= 0x80 then SkipVarint(b[1..]) else Some(b[1..])
  }

  /** What is left after a field nobody knows. */
  function SkipField(wt: nat, b: bytes): (r: Option<bytes>)
    ensures r.Some? ==> |r.value| < |b|
  {
    if wt == WT_VARINT then SkipVarint(b)
    else if wt == WT_64BIT then if |b| < 8 then None else Some(b[8..])
    else if wt == WT_STRING then
      (match DecodeLength(b)
       case Some(Read(_, rest)) => Some(rest)
       case None => None)
    else if wt == WT_32BIT then if |b| < 4 then None else Some(b[4..])
    else None
  }

  /** A message being decoded, and which required fields (by number among the required ones) have come. */
  datatype State = State(msg: Message, seen: set<nat>)

  /** One record, key already read. */
  function DecodeRecord(fields: seq<Field>, st: State, tag: nat, wt: nat, b: bytes): (r: Option<Read<State>>)
    ensures r.Some? ==> |r.value.rest| < |b|
    decreases |b|, 5
  {
    match Find(fields, tag)
    case None =>
      // In a message type without fields, number 0 finds the terminator, which no data fits.
      if fields == [] && tag == 0 then None else
      (match SkipField(wt, b)
       case Some(rest) => Some(Read(st, rest))
       case None => None)
    case Some(i) =>
      if SlotOf(fields, i) >= |st.msg| then None else
      (match DecodeField(fields[i], wt, st.msg[SlotOf(fields, i)], b)
       case Some(Read(slot, rest)) => Some(Read(Stored(fields, st, i, slot), rest))
       case None => None)
  }

  function Stored(fields: seq<Field>, st: State, i: nat, slot: Slot): State
    requires i < |fields| && SlotOf(fields, i) < |st.msg|
  {
    var r := RequiredBefore(fields, i);
    State(st.msg[SlotOf(fields, i) := slot],
          if fields[i].htype == Required && r < MAX_REQUIRED_FIELDS then st.seen + {r} else st.seen)
  }

  /** All records, up to the end of the input or a key of zero. */
  function DecodeRecords(fields: seq<Field>, st: State, b: bytes): Option<State>
    decreases |b|, 0
  {
    if b == [] then Some(st) else
    match DecodeVarint32(b)
    case None => None
    case Some(Read(key, rest)) =>
      if key == 0 then Some(st) else
      (match DecodeRecord(fields, st, key / 8, key % 8, rest)
       case Some(Read(st', rest')) => DecodeRecords(fields, st', rest')
       case None => None)
  }

  /** Only the first 64 required fields are checked. */
  predicate RequiredSeen(fields: seq<Field>, seen: set<nat>)
  {
    forall r :: 0 <= r < RequiredBefore(fields, |fields|) && r < MAX_REQUIRED_FIELDS ==> r in seen
  }

  /** Decoding into a message that is not initialised first. */
  function Decode(fields: seq<Field>, m: Message, b: bytes): Option<Message>
    decreases |b|, 1
  {
    match DecodeRecords(fields, State(m, {}), b)
    case Some(st) => if RequiredSeen(fields, st.seen) then Some(st.msg) else None
    case None => None
  }

  // ---------------------------------------------------------------------------------------
  // Two things one would not expect.

  /** No field has number 0; its record is skipped, except where there are no fields at all: then it is an error. */
  lemma FieldZero(fields: seq<Field>, st: State, wt: nat, b: bytes)
    requires DescriptorOk(fields)
    ensures DecodeRecord(fields, st, 0, wt, b) ==
      if fields == [] || SkipField(wt, b).None? then None else Some(Read(st, SkipField(wt, b).value))
  {
    forall i | 0 <= i < |fields| ensures fields[i].tag > 0 {
      assert fields[i] in fields;
    }
  }

  /** A required field after the 64th may be missing. */
  lemma SixtyFifthUnchecked(fields: seq<Field>, seen: set<nat>, r: nat)
    requires MAX_REQUIRED_FIELDS <= r
    ensures RequiredSeen(fields, seen) <==> RequiredSeen(fields, seen - {r})
  {
    if RequiredSeen(fields, seen) {
      forall i | 0 <= i < RequiredBefore(fields, |fields|) && i < MAX_REQUIRED_FIELDS ensures i in seen - {r} {
        assert i in seen;
      }
    } else {
      var i :| 0 <= i < RequiredBefore(fields, |fields|) && i < MAX_REQUIRED_FIELDS && i !in seen;
      assert i !in seen - {r};
    }
  }
}
