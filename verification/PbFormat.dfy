/**
 The wire format as the Protocol Buffers encoding document has it, told apart from what the decoder
 makes of it; and forms of input that the encoder never emits but the decoder must take.
 */
module PbFormat {
  import opened Wrappers
  import opened Bytes
  import opened PbVarint
  import opened PbSchema
  import opened PbWire
  import PbRoundTrip

  // ---------------------------------------------------------------------------------------
  // Numbers.

  /** What groups of seven bits stand for, the lowest first. */
  function FromGroups(b: bytes): nat
  {
    if b == [] then 0 else b[0] % 0x80 + 0x80 * FromGroups(b[1..])
  }

  /** A varint is its number in base 128, lowest group first, in no more bytes than needed; only the last ends it. */
  lemma {:induction false} VarintGroups(v: nat)
    ensures var b := EncodeVarint(v);
      && FromGroups(b) == v && (forall k :: 0 <= k < |b| - 1 ==> b[k] >= 0x80)
      && b[|b| - 1] < 0x80 && (|b| > 1 ==> b[|b| - 1] != 0)
    decreases v
  {
    if v <= 0x7f {
      assert EncodeVarint(v)[1..] == [];
    } else {
      VarintGroups(v / 0x80);
      OneGroupMore(v % 0x80, EncodeVarint(v / 0x80));
    }
  }

  lemma OneGroupMore(low: nat, b: bytes)
    requires low < 0x80 && b != []
    ensures var all := [low + 0x80] + b;
      && FromGroups(all) == low + 0x80 * FromGroups(b) && all[|all| - 1] == b[|b| - 1]
      && ((forall k :: 0 <= k < |b| - 1 ==> b[k] >= 0x80) ==> forall k :: 0 <= k < |all| - 1 ==> all[k] >= 0x80)
  {
    var all := [low + 0x80] + b;
    assert all[1..] == b;
  }

  /** Zigzag is the shift to the left by one, complemented if the number is negative, of its 64-bit form. */
  lemma ZigZagIsShift(n: int)
    requires -0x8000_0000_0000_0000 <= n < 0x8000_0000_0000_0000
    ensures var shifted := 2 * (n % LIMIT64) % LIMIT64;
      ZigZag(n) == if n < 0 then LIMIT64 - 1 - shifted else shifted
  {
    if n < 0 {
      assert n % LIMIT64 == n + LIMIT64;
      assert 2 * (n + LIMIT64) == (2 * n + LIMIT64) + LIMIT64;
      AddedOnce((2 * n + LIMIT64) as nat, LIMIT64);
    } else {
      assert n % LIMIT64 == n;
      SmallMod(2 * n, LIMIT64);
    }
  }

  lemma AddedOnce(x: nat, m: nat)
    requires x < m
    ensures (x + m) % m == x
  {
  }

  /** Signed fields other than zigzag ones go out as 64-bit two's complement, whatever their size. */
  lemma SignedIsTwosComplement(f: Field, n: int)
    requires f.ltype == Varint && EncodeValue(f, Num(n)).Some?
    ensures EncodeValue(f, Num(n)) == Some(EncodeVarint(if n < 0 then 0x1_0000_0000_0000_0000 + n else n))
  {
  }

  // ---------------------------------------------------------------------------------------
  // Records.

  /** What the document calls the wire type. */
  function Documented(l: LType): nat
  {
    match l
    case Varint => 0
    case Uvarint => 0
    case Svarint => 0
    case Fixed64 => 1
    case BytesField => 2
    case StringField => 2
    case Submessage => 2
    case FixedLengthBytes => 2
    case Fixed32 => 5
  }

  /** A single value stands behind its field number times eight plus the documented wire type, ... */
  lemma SingleRecord(f: Field, slot: Slot)
    requires FieldRecords(f, slot).Some? && Present(f, slot) && !slot.Rep?
    ensures EncodeValue(f, slot.v).Some?
    ensures FieldRecords(f, slot) ==
      Some([EncodeVarint(8 * f.tag + Documented(f.ltype)) + EncodeValue(f, slot.v).value])
  {
    match f.ltype case _ =>
  }

  /** ... an array of numbers is one run of bytes of wire type two, ... */
  lemma PackedRecord(f: Field, items: seq<Value>)
    requires FieldRecords(f, Rep(items)).Some? && items != [] && f.htype == Repeated && Packable(f.ltype)
    ensures EncodePacked(f, items).Some?
    ensures var b := EncodePacked(f, items).value;
      FieldRecords(f, Rep(items)) == Some([EncodeVarint(8 * f.tag + 2) + EncodeVarint(|b|) + b])
  {
    var b := EncodePacked(f, items).value;
    assert EncodeVarint(8 * f.tag + 2) + (EncodeVarint(|b|) + b) == EncodeVarint(8 * f.tag + 2) + EncodeVarint(|b|) + b;
  }

  /** ... and any other array has a record for each entry, in order. */
  lemma {:induction false} EntryRecords(f: Field, items: seq<Value>, k: nat)
    requires EncodeEntries(f, items).Some? && k < |items|
    ensures EncodeValue(f, items[k]).Some? && |EncodeEntries(f, items).value| == |items|
    ensures EncodeEntries(f, items).value[k] ==
      EncodeVarint(8 * f.tag + Documented(f.ltype)) + EncodeValue(f, items[k]).value
    decreases |items|
  {
    EntriesCounted(f, items[..|items| - 1]);
    if k < |items| - 1 {
      EntryRecords(f, items[..|items| - 1], k);
    } else {
      match f.ltype case _ =>
    }
  }

  lemma {:induction false} EntriesCounted(f: Field, items: seq<Value>)
    requires EncodeEntries(f, items).Some?
    ensures |EncodeEntries(f, items).value| == |items|
    decreases |items|
  {
    if items != [] {
      EntriesCounted(f, items[..|items| - 1]);
    }
  }

  // ---------------------------------------------------------------------------------------
  // Skipping.

  lemma {:induction false} VarintSkips(v: nat, rest: bytes)
    ensures SkipVarint(EncodeVarint(v) + rest) == Some(rest)
    decreases v
  {
    EncodedHead(v, rest);
    if v > 0x7f {
      VarintSkips(v / 0x80, rest);
    }
  }

  /** Whatever value another message type may have under an unknown number, it is skipped to its end and no further. */
  lemma AnyValueIsSkipped(f: Field, v: Value, rest: bytes)
    requires EncodeValue(f, v).Some? && |EncodeValue(f, v).value| < LIMIT32
    ensures SkipField(Documented(f.ltype), EncodeValue(f, v).value + rest) == Some(rest)
  {
    var b := EncodeValue(f, v).value;
    match f.ltype
    case Varint => VarintSkips(v.n % LIMIT64, rest);
    case Uvarint => VarintSkips(v.n, rest);
    case Svarint => VarintSkips(ZigZag(v.n), rest);
    case Fixed32 => assert (b + rest)[4..] == rest;
    case Fixed64 => assert (b + rest)[8..] == rest;
    case BytesField => PbRoundTrip.LengthDecodes(v.b, rest);
    case StringField => PbRoundTrip.LengthDecodes(v.s, rest);
    case FixedLengthBytes => PbRoundTrip.LengthDecodes(v.b, rest);
    case Submessage => PbRoundTrip.LengthDecodes(Encode(f.sub, v.m).value, rest);
  }

  /** A packed array likewise. */
  lemma PackedIsSkipped(b: bytes, rest: bytes)
    requires |b| < LIMIT32
    ensures SkipField(2, EncodeVarint(|b|) + b + rest) == Some(rest)
  {
    PbRoundTrip.LengthDecodes(b, rest);
  }

  /** A wire type that does not exist is an error. */
  lemma NoSuchWireType(wt: nat, b: bytes)
    ensures wt != 0 && wt != 1 && wt != 2 && wt != 5 ==> SkipField(wt, b).None?
    ensures wt == 1 ==> SkipField(wt, b) == if |b| < 8 then None else Some(b[8..])
    ensures wt == 5 ==> SkipField(wt, b) == if |b| < 4 then None else Some(b[4..])
  {
  }

  // ---------------------------------------------------------------------------------------
  // Arrays in other forms.

  /** A number that comes outside a packed run is one entry more, if there is room. */
  lemma UnpackedEntry(f: Field, wt: nat, items: seq<Value>, v: Value, rest: bytes)
    requires f.htype == Repeated && Packable(f.ltype) && wt != 2 && EncodeValue(f, v).Some?
    ensures DecodeField(f, wt, Rep(items), EncodeValue(f, v).value + rest) ==
      if |items| < f.arraySize then Some(Read(Rep(items + [v]), rest)) else None
  {
    PbRoundTrip.PackedValueDecodes(f, v, rest);
  }

  lemma {:induction false} PackedFirst(f: Field, items: seq<Value>)
    requires Packable(f.ltype) && EncodePacked(f, items).Some? && items != []
    ensures EncodeValue(f, items[0]).Some? && EncodePacked(f, items[1..]).Some?
    ensures EncodePacked(f, items).value == EncodeValue(f, items[0]).value + EncodePacked(f, items[1..]).value
    decreases |items|
  {
    var init, last := items[..|items| - 1], items[|items| - 1];
    if init == [] {
      assert items[1..] == [];
      assert [] + EncodeValue(f, last).value == EncodeValue(f, last).value + [];
    } else {
      PackedFirst(f, init);
      assert items[1..][..|items| - 2] == init[1..];
      var a, b, c := EncodeValue(f, items[0]).value, EncodePacked(f, init[1..]).value, EncodeValue(f, last).value;
      assert (a + b) + c == a + (b + c);
    }
  }

  lemma {:induction false} PackedOnto(f: Field, items: seq<Value>, more: seq<Value>)
    requires Packable(f.ltype) && EncodePacked(f, more).Some?
    ensures DecodePacked(f, items, EncodePacked(f, more).value) ==
      if more == [] || |items| + |more| <= f.arraySize then Some(items + more) else None
    decreases |more|
  {
    if more == [] {
      assert items + more == items;
    } else {
      PackedFirst(f, more);
      var rest := EncodePacked(f, more[1..]).value;
      PbRoundTrip.PackedValueDecodes(f, more[0], rest);
      PackedOnto(f, items + [more[0]], more[1..]);
      assert items + [more[0]] + more[1..] == items + more;
    }
  }

  /** Packed runs may come in pieces, between entries that come alone: each adds its entries, if there is room. */
  lemma PackedRun(f: Field, items: seq<Value>, more: seq<Value>, rest: bytes)
    requires f.htype == Repeated && Packable(f.ltype) && EncodePacked(f, more).Some?
    requires |EncodePacked(f, more).value| < LIMIT32
    ensures var b := EncodePacked(f, more).value;
      DecodeField(f, 2, Rep(items), EncodeVarint(|b|) + b + rest) ==
        if more == [] || |items| + |more| <= f.arraySize then Some(Read(Rep(items + more), rest)) else None
  {
    PbRoundTrip.LengthDecodes(EncodePacked(f, more).value, rest);
    PackedOnto(f, items, more);
  }

  /** A string in memory is cut at its first zero byte; one without comes back whole. */
  lemma {:induction false} CutAtZero(s: bytes)
    ensures UpToNul(s) <= s && 0 !in UpToNul(s)
    ensures |UpToNul(s)| < |s| ==> s[|UpToNul(s)|] == 0
  {
    if s != [] && s[0] != 0 {
      CutAtZero(s[1..]);
      assert s == [s[0]] + s[1..];
    }
  }

  /** In a signed field of 32 bits or fewer only the low half of a varint counts, so that either form is taken. */
  lemma UpperHalfIgnored(f: Field, v: nat)
    requires f.ltype == Varint && f.dataSize != 8
    ensures DecodeInteger(f, v) == DecodeInteger(f, v % LIMIT32)
    ensures f.dataSize == 4 ==> DecodeInteger(f, v).Some?
  {
    SmallMod(v % LIMIT32, LIMIT32);
  }

  /** An unsigned field takes exactly what it can hold, and so does a zigzag one. */
  lemma HoldsWhatFits(f: Field, v: nat)
    ensures f.ltype == Uvarint ==>
      DecodeInteger(f, v) ==
        if v < (match f.dataSize case 1 => 0x100 case 2 => 0x1_0000 case 4 => 0x1_0000_0000
                case 8 => 0x1_0000_0000_0000_0000 case _ => 0) then Some(Num(v)) else None
    ensures f.ltype == Svarint ==> (DecodeInteger(f, v).Some? <==> EncodeValue(f, Num(UnZigZag(v))).Some?)
  {
  }

  /** Which values of a field can be encoded at all: those that memory of its type and size can hold. */
  lemma EncodesExactly(f: Field, n: int, s: bytes)
    ensures f.ltype == Varint || f.ltype == Svarint ==>
      (EncodeValue(f, Num(n)).Some? <==>
        || (f.dataSize == 1 && -0x80 <= n < 0x80) || (f.dataSize == 2 && -0x8000 <= n < 0x8000)
        || (f.dataSize == 4 && -0x8000_0000 <= n < 0x8000_0000)
        || (f.dataSize == 8 && -0x8000_0000_0000_0000 <= n < 0x8000_0000_0000_0000))
    ensures f.ltype == Uvarint ==>
      (EncodeValue(f, Num(n)).Some? <==>
        || (f.dataSize == 1 && 0 <= n < 0x100) || (f.dataSize == 2 && 0 <= n < 0x1_0000)
        || (f.dataSize == 4 && 0 <= n < 0x1_0000_0000) || (f.dataSize == 8 && 0 <= n < 0x1_0000_0000_0000_0000))
    ensures f.ltype == Fixed32 ==> (EncodeValue(f, Num(n)).Some? <==> 0 <= n < 0x1_0000_0000)
    ensures f.ltype == Fixed64 ==> (EncodeValue(f, Num(n)).Some? <==> 0 <= n < 0x1_0000_0000_0000_0000)
    ensures f.ltype == BytesField ==> (EncodeValue(f, Octets(s)).Some? <==> |s| + 4 <= f.dataSize)
    ensures f.ltype == StringField ==> (EncodeValue(f, Text(s)).Some? <==> |s| <= f.dataSize && 0 !in s)
    ensures f.ltype == FixedLengthBytes ==> (EncodeValue(f, Octets(s)).Some? <==> |s| == f.dataSize)
  {
  }
}
