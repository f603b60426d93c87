/**
 What a message holds once it has been encoded and decoded, field by field: what was set is kept, whether or
 not it had to be written, and the rest is at its default.
 */
module PbKept {
  import opened Wrappers
  import opened Bytes
  import opened PbSchema
  import opened PbWire
  import opened PbRoundTrip

  /** What a field holds in a message that has only been initialised. */
  lemma DefaultsInFull(fields: seq<Field>, i: nat)
    requires i < |fields|
    ensures SlotOf(fields, i) < |Defaults(fields)|
    ensures var f, slot := fields[i], Defaults(fields)[SlotOf(fields, i)];
      && (f.htype == Repeated ==> slot == Rep([]))
      && (f.htype == Oneof ==> slot.Union? && slot.which == 0)
      && (f.htype == Required || (f.htype == Optional && !f.hasFlag) ==> slot.One?)
      && (f.htype == Optional && f.hasFlag ==> slot.Opt? && !slot.has)
      && (f.htype == Required || f.htype == Optional ==>
            if f.ltype == Submessage then slot.v == Sub(Defaults(f.sub))
            else if f.init.Some? then slot.v == f.init.value
            else match f.ltype
              case BytesField => slot.v == Octets([])
              case StringField => slot.v == Text([])
              case FixedLengthBytes =>
                slot.v.Octets? && |slot.v.b| == f.dataSize && forall k :: 0 <= k < f.dataSize ==> slot.v.b[k] == 0
              case _ => slot.v == Num(0))
  {
    DefaultsAt(fields, i, |fields|);
  }

  /** A message in which every field is at its zero value comes back as one that has only been initialised. */
  lemma {:induction false} ZeroIsDefault(fields: seq<Field>, m: Message, n: nat)
    requires DescriptorOk(fields) && n <= |fields| && AllAtDefault(fields, m, n)
    ensures NormalUpTo(fields, m, n) == Defaults(fields)
  {
    if n > 0 {
      ZeroIsDefault(fields, m, n - 1);
      assert fields[n - 1] in fields;
    }
  }

  /** A required field keeps its value, ... */
  lemma RequiredKept(fields: seq<Field>, m: Message, i: nat)
    requires i < |fields| && fields[i].htype == Required && SlotOf(fields, i) < |m| && m[SlotOf(fields, i)].One?
    ensures SlotOf(fields, i) < |Normal(fields, m)|
    ensures Normal(fields, m)[SlotOf(fields, i)] == One(NormalValue(fields[i], m[SlotOf(fields, i)].v))
  {
    PresentKeptAbsentDefault(fields, m, i);
  }

  /** ... an optional one that is set keeps its own and one that is not is at its default, ... */
  lemma OptionalKept(fields: seq<Field>, m: Message, i: nat)
    requires i < |fields| && fields[i].htype == Optional && fields[i].hasFlag
    requires SlotOf(fields, i) < |m| && m[SlotOf(fields, i)].Opt?
    ensures SlotOf(fields, i) < |Normal(fields, m)| && SlotOf(fields, i) < |Defaults(fields)|
    ensures Normal(fields, m)[SlotOf(fields, i)] ==
      if m[SlotOf(fields, i)].has then Opt(true, NormalValue(fields[i], m[SlotOf(fields, i)].v))
      else Defaults(fields)[SlotOf(fields, i)]
  {
    PresentKeptAbsentDefault(fields, m, i);
    DefaultsAt(fields, i, |fields|);
  }

  /** ... and an array keeps its entries, also if it has none. */
  lemma RepeatedKept(fields: seq<Field>, m: Message, i: nat)
    requires i < |fields| && fields[i].htype == Repeated && SlotOf(fields, i) < |m| && m[SlotOf(fields, i)].Rep?
    ensures SlotOf(fields, i) < |Normal(fields, m)|
    ensures Normal(fields, m)[SlotOf(fields, i)] == Rep(NormalItems(fields[i], m[SlotOf(fields, i)].items))
  {
    PresentKeptAbsentDefault(fields, m, i);
    DefaultsAt(fields, i, |fields|);
  }

  lemma SingularWritten(f: Field, v: Value)
    requires f.htype == Optional && !f.hasFlag
    ensures Present(f, One(v)) <==> !ZeroValue(f, v)
  {
    assert AtDefault(f, One(v)) <==> ZeroValue(f, v);
  }

  /** A proto3 field without presence keeps bytes and strings, though empty ones are not written. */
  lemma SingularTextKept(fields: seq<Field>, m: Message, i: nat)
    requires DescriptorOk(fields) && i < |fields| && fields[i].htype == Optional && !fields[i].hasFlag
    requires SlotOf(fields, i) < |m| && m[SlotOf(fields, i)].One?
    requires var f, v := fields[i], m[SlotOf(fields, i)].v;
      || (f.ltype == StringField && v.Text?) || (f.ltype == BytesField && v.Octets?)
      || (f.ltype == FixedLengthBytes && v.Octets? && |v.b| == f.dataSize)
    ensures SlotOf(fields, i) < |Normal(fields, m)| && Normal(fields, m)[SlotOf(fields, i)] == m[SlotOf(fields, i)]
  {
    var f, slot := fields[i], m[SlotOf(fields, i)];
    assert f in fields;
    SingularWritten(f, slot.v);
    PresentKeptAbsentDefault(fields, m, i);
    if !Present(f, slot) && f.ltype == FixedLengthBytes {
      assert Zeros(0) == slot.v.b;
    }
  }

  /** And a message in one comes back as it would by itself, though an all-zero one is not written. */
  lemma SingularMessageKept(fields: seq<Field>, m: Message, i: nat)
    requires DescriptorOk(fields) && i < |fields| && fields[i].htype == Optional && !fields[i].hasFlag
    requires fields[i].ltype == Submessage
    requires SlotOf(fields, i) < |m| && m[SlotOf(fields, i)].One? && m[SlotOf(fields, i)].v.Sub?
    ensures SlotOf(fields, i) < |Normal(fields, m)|
    ensures Normal(fields, m)[SlotOf(fields, i)] == One(Sub(Normal(fields[i].sub, m[SlotOf(fields, i)].v.m)))
  {
    var f, inner := fields[i], m[SlotOf(fields, i)].v.m;
    assert f in fields;
    SingularWritten(f, m[SlotOf(fields, i)].v);
    PresentKeptAbsentDefault(fields, m, i);
    if AllAtDefault(f.sub, inner, |f.sub|) {
      ZeroIsDefault(f.sub, inner, |f.sub|);
    }
  }

  /** What is kept of a value, and of the entries of an array, one by one. */
  lemma {:induction false} ItemsKept(f: Field, items: seq<Value>, k: nat)
    requires k < |items|
    ensures f.ltype != Submessage ==> NormalItems(f, items)[k] == items[k]
    ensures f.ltype == Submessage && items[k].Sub? ==> NormalItems(f, items)[k] == Sub(Normal(f.sub, items[k].m))
    decreases |items|
  {
    if k < |items| - 1 {
      ItemsKept(f, items[..|items| - 1], k);
    }
  }
}
