/**
 Message descriptors and messages in memory, as nanopb's `pb_field_t` arrays describe them.

 A descriptor is the flat list of a message's fields. A message is a list of slots: every field
 has its own, except that the members of a oneof share one, which is what the field iterator's
 data pointer does when it does not advance inside a union.
 */
module PbSchema {
  import opened Wrappers
  import opened Bytes

  datatype LType = Varint | Uvarint | Svarint | Fixed32 | Fixed64 | BytesField | StringField | Submessage
                 | FixedLengthBytes

  datatype HType = Required | Optional | Repeated | Oneof

  /**
   `hasFlag` says that an optional field has a presence flag; one without is a proto3 singular
   field. `contd` marks a field that does not advance the data pointer, `init` its default value.
   */
  datatype Field = Field(tag: nat, ltype: LType, htype: HType, hasFlag: bool, contd: bool,
                         dataSize: u32, arraySize: u32, sub: seq<Field>, init: Option<Value>)

  datatype Value = Num(n: int) | Octets(b: bytes) | Text(s: bytes) | Sub(m: Message)

  datatype Slot = One(v: Value) | Opt(has: bool, v: Value) | Rep(items: seq<Value>) | Union(which: nat, v: Value)

  type Message = seq<Slot>

  /** Size of the length field in front of a `bytes` value. */
  const BYTES_HEADER := 4
  const MAX_TAG := 0x2000_0000
  const MAX_REQUIRED_FIELDS := 64

  predicate Packable(l: LType)
  {
    l == Varint || l == Uvarint || l == Svarint || l == Fixed32 || l == Fixed64
  }

  /** Field `i` shares the slot of the field before it. */
  predicate Continues(fields: seq<Field>, i: nat)
    requires i < |fields|
  {
    i > 0 && fields[i].contd && fields[i].htype == Oneof && fields[i - 1].htype == Oneof
  }

  function SlotOf(fields: seq<Field>, i: nat): nat
    requires i < |fields|
  {
    if i == 0 then 0 else SlotOf(fields, i - 1) + if Continues(fields, i) then 0 else 1
  }

  function Find(fields: seq<Field>, tag: nat): (r: Option<nat>)
    ensures r.Some? ==> r.value < |fields| && fields[r.value].tag == tag
    ensures r.None? ==> forall i :: 0 <= i < |fields| ==> fields[i].tag != tag
  {
    FindUpTo(fields, |fields|, tag)
  }

  function FindUpTo(fields: seq<Field>, n: nat, tag: nat): (r: Option<nat>)
    requires n <= |fields|
    ensures r.Some? ==> r.value < n && fields[r.value].tag == tag
    ensures r.None? ==> forall i :: 0 <= i < n ==> fields[i].tag != tag
  {
    if n == 0 then None else
    match FindUpTo(fields, n - 1, tag)
    case Some(i) => Some(i)
    case None => if fields[n - 1].tag == tag then Some(n - 1) else None
  }

  /** Number of required fields among the first `n`. */
  function RequiredBefore(fields: seq<Field>, n: nat): (r: nat)
    requires n <= |fields|
    ensures r <= n
  {
    if n == 0 then 0 else RequiredBefore(fields, n - 1) + if fields[n - 1].htype == Required then 1 else 0
  }

  // ---------------------------------------------------------------------------------------
  // Defaults.

  function DefaultValue(f: Field): Value
    decreases f, 1
  {
    if f.ltype == Submessage then Sub(Defaults(f.sub))
    else if f.init.Some? then f.init.value
    else match f.ltype
      case BytesField => Octets([])
      case StringField => Text([])
      case FixedLengthBytes => Octets(Zeros(f.dataSize))
      case _ => Num(0)
  }

  /** What a oneof holds while no member is set. */
  const UNSET := Union(0, Num(0))

  function DefaultSlot(f: Field): Slot
    decreases f, 2
  {
    match f.htype
    case Required => One(DefaultValue(f))
    case Optional => if f.hasFlag then Opt(false, DefaultValue(f)) else One(DefaultValue(f))
    case Repeated => Rep([])
    case Oneof => UNSET
  }

  function Defaults(fields: seq<Field>): Message
    decreases fields, 3
  {
    DefaultsUpTo(fields, |fields|)
  }

  function DefaultsUpTo(fields: seq<Field>, n: nat): (m: Message)
    requires n <= |fields|
    ensures |m| == if n == 0 then 0 else SlotOf(fields, n - 1) + 1
    decreases fields, 2, n
  {
    if n == 0 then []
    else if Continues(fields, n - 1) then DefaultsUpTo(fields, n - 1)
    else DefaultsUpTo(fields, n - 1) + [DefaultSlot(fields[n - 1])]
  }

  // ---------------------------------------------------------------------------------------
  // What descriptors promise.

  ghost predicate DescriptorOk(fields: seq<Field>)
    decreases fields
  {
    && (forall i, j :: 0 <= i < j < |fields| ==> fields[i].tag != fields[j].tag)
    && (forall f :: f in fields ==>
          && 0 < f.tag < MAX_TAG
          && (f.htype == Optional && !f.hasFlag ==> f.init.None?)
          && (f.ltype == Submessage ==> DescriptorOk(f.sub)))
  }

  lemma {:induction false} SlotsGrow(fields: seq<Field>, i: nat, j: nat)
    requires i <= j < |fields|
    ensures SlotOf(fields, i) <= SlotOf(fields, j)
    ensures i < j && fields[j].htype != Oneof ==> SlotOf(fields, i) < SlotOf(fields, j)
    ensures i < j && fields[i].htype != Oneof ==> SlotOf(fields, i) < SlotOf(fields, j)
    decreases j - i
  {
    if i < j {
      SlotsGrow(fields, i, j - 1);
      if i + 1 < j {
        SlotsGrow(fields, i + 1, j);
      }
    }
  }

  /** Only members of a oneof ever share a slot. */
  lemma SlotsExclusive(fields: seq<Field>, i: nat, j: nat)
    requires i < |fields| && j < |fields| && i != j && SlotOf(fields, i) == SlotOf(fields, j)
    ensures fields[i].htype == Oneof && fields[j].htype == Oneof
  {
    if i < j { SlotsGrow(fields, i, j); } else { SlotsGrow(fields, j, i); }
  }

  /** Every slot starts out as the default of the fields that own it. */
  lemma {:induction false} DefaultsAt(fields: seq<Field>, i: nat, n: nat)
    requires i < n <= |fields|
    ensures SlotOf(fields, i) < |DefaultsUpTo(fields, n)|
    ensures DefaultsUpTo(fields, n)[SlotOf(fields, i)] == DefaultSlot(fields[i])
    decreases n
  {
    SlotsGrow(fields, i, n - 1);
    if i < n - 1 {
      SlotsGrow(fields, i, n - 2);
      DefaultsAt(fields, i, n - 1);
    } else if Continues(fields, i) {
      DefaultsAt(fields, i - 1, n - 1);
    }
  }
}
