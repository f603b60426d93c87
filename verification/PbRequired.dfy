/**
 Required fields, told from the input: which records it holds, not which bits were set on the way, decides
 whether a message that decodes is refused.
 */
module PbRequired {
  import opened Wrappers
  import opened Bytes
  import opened PbVarint
  import opened PbSchema
  import opened PbWire
  import PbRoundTrip

  /** The field numbers of the records of an input, as far as it decodes. */
  function TagsIn(fields: seq<Field>, st: State, b: bytes): set<nat>
    decreases |b|
  {
    if b == [] then {} else
    match DecodeVarint32(b)
    case None => {}
    case Some(Read(key, rest)) =>
      if key == 0 then {} else
      match DecodeRecord(fields, st, key / 8, key % 8, rest)
      case None => {}
      case Some(Read(next, rest')) => {key / 8} + TagsIn(fields, next, rest')
  }

  /** The message decoder gets through all the records. */
  predicate RecordsDecode(fields: seq<Field>, m: Message, b: bytes)
  {
    DecodeRecords(fields, State(m, {}), b).Some?
  }

  /** Field `i` is among the first 64 required ones. */
  predicate Checked(fields: seq<Field>, i: nat)
  {
    i < |fields| && fields[i].htype == Required && RequiredBefore(fields, i) < 64
  }

  lemma OneMoreRequired(fields: seq<Field>, n: nat)
    requires n < |fields|
    ensures (set i: nat | i < n + 1 && fields[i].htype == Required) ==
      (set i: nat | i < n && fields[i].htype == Required) + if fields[n].htype == Required then {n} else {}
  {
  }

  /** The number that the decoder gives a required field is how many come before it. */
  lemma {:induction false} RequiredCounted(fields: seq<Field>, n: nat)
    requires n <= |fields|
    ensures RequiredBefore(fields, n) == |set i: nat | i < n && fields[i].htype == Required|
  {
    if n > 0 {
      RequiredCounted(fields, n - 1);
      OneMoreRequired(fields, n - 1);
    }
  }

  lemma {:induction false} Increasing(fields: seq<Field>, i: nat, n: nat)
    requires i < n <= |fields|
    ensures RequiredBefore(fields, i) + (if fields[i].htype == Required then 1 else 0) <= RequiredBefore(fields, n)
    decreases n
  {
    if i + 1 < n {
      Increasing(fields, i, n - 1);
    }
  }

  /** Every number below the total is that of one required field. */
  lemma {:induction false} NumberTaken(fields: seq<Field>, n: nat, r: nat) returns (i: nat)
    requires n <= |fields| && r < RequiredBefore(fields, n)
    ensures i < n && fields[i].htype == Required && RequiredBefore(fields, i) == r
  {
    if r < RequiredBefore(fields, n - 1) {
      i := NumberTaken(fields, n - 1, r);
    } else {
      i := n - 1;
    }
  }

  /** The bits set are those of the checked fields whose records came. */
  ghost predicate SeenIsTags(fields: seq<Field>, before: set<nat>, tags: set<nat>, after: set<nat>)
  {
    forall i: nat :: Checked(fields, i) ==>
      (RequiredBefore(fields, i) in after <==> RequiredBefore(fields, i) in before || fields[i].tag in tags)
  }

  /** One record sets the bit of its own field, and no other. */
  lemma RecordSets(fields: seq<Field>, st: State, tag: nat, wt: nat, b: bytes)
    requires DescriptorOk(fields) && DecodeRecord(fields, st, tag, wt, b).Some?
    ensures SeenIsTags(fields, st.seen, {tag}, DecodeRecord(fields, st, tag, wt, b).value.value.seen)
  {
    forall i: nat | Checked(fields, i)
      ensures RequiredBefore(fields, i) in DecodeRecord(fields, st, tag, wt, b).value.value.seen
        <==> RequiredBefore(fields, i) in st.seen || fields[i].tag in {tag}
    {
      if Find(fields, tag).Some? {
        var j := Find(fields, tag).value;
        if j < i {
          Increasing(fields, j, i);
        } else if i < j {
          Increasing(fields, i, j);
        }
      }
    }
  }

  lemma {:induction false} RecordsSet(fields: seq<Field>, st: State, b: bytes)
    requires DescriptorOk(fields) && DecodeRecords(fields, st, b).Some?
    ensures SeenIsTags(fields, st.seen, TagsIn(fields, st, b), DecodeRecords(fields, st, b).value.seen)
    decreases |b|
  {
    if b != [] && DecodeVarint32(b).value.value != 0 {
      var r := DecodeVarint32(b).value;
      RecordSets(fields, st, r.value / 8, r.value % 8, r.rest);
      var next := DecodeRecord(fields, st, r.value / 8, r.value % 8, r.rest).value;
      RecordsSet(fields, next.value, next.rest);
      assert TagsIn(fields, st, b) == {r.value / 8} + TagsIn(fields, next.value, next.rest);
    }
  }

  /**
   An input whose records all decode is refused exactly if one of the first 64 required fields has no
   record in it; otherwise the message is what the records make it.
   */
  lemma RefusedExactlyIfMissing(fields: seq<Field>, m: Message, b: bytes)
    requires DescriptorOk(fields)
    ensures Decode(fields, m, b).Some? <==>
      && RecordsDecode(fields, m, b)
      && forall i: nat :: Checked(fields, i) ==> fields[i].tag in TagsIn(fields, State(m, {}), b)
    ensures Decode(fields, m, b).Some? ==>
      Decode(fields, m, b).value == DecodeRecords(fields, State(m, {}), b).value.msg
  {
    if RecordsDecode(fields, m, b) {
      var tags, seen := TagsIn(fields, State(m, {}), b), DecodeRecords(fields, State(m, {}), b).value.seen;
      RecordsSet(fields, State(m, {}), b);
      if RequiredSeen(fields, seen) {
        forall i: nat | Checked(fields, i) ensures fields[i].tag in tags {
          Increasing(fields, i, |fields|);
          assert RequiredBefore(fields, i) in seen;
        }
      } else {
        var r :| 0 <= r < RequiredBefore(fields, |fields|) && r < MAX_REQUIRED_FIELDS && r !in seen;
        var i := NumberTaken(fields, |fields|, r);
        assert Checked(fields, i);
      }
    }
  }

  /** In particular, nothing at all is a message only of a type without required fields. */
  lemma NothingDecodes(fields: seq<Field>, m: Message)
    requires DescriptorOk(fields)
    ensures Decode(fields, m, []) == if forall f :: f in fields ==> f.htype != Required then Some(m) else None
  {
    RefusedExactlyIfMissing(fields, m, []);
    if exists f :: f in fields && f.htype == Required {
      FirstRequired(fields, |fields|);
    }
  }

  lemma {:induction false} FirstRequired(fields: seq<Field>, n: nat)
    requires n <= |fields|
    ensures (exists i: nat :: i < n && fields[i].htype == Required) ==>
      exists i: nat :: i < n && fields[i].htype == Required && RequiredBefore(fields, i) == 0
  {
    if n > 0 {
      FirstRequired(fields, n - 1);
      if fields[n - 1].htype == Required && RequiredBefore(fields, n - 1) > 0 {
        var i := NumberTaken(fields, n - 1, 0);
      }
    }
  }

  // ---------------------------------------------------------------------------------------
  // Records in a row.

  /** A record: its field number and wire type, and what follows them. */
  datatype Item = Item(tag: nat, wt: nat, body: bytes)

  function ItemBytes(items: seq<Item>): bytes
  {
    if items == [] then [] else Key(items[0].tag, items[0].wt) + items[0].body + ItemBytes(items[1..])
  }

  /** Each item is read to its end and no further. */
  predicate Rows(fields: seq<Field>, st: State, items: seq<Item>)
    decreases |items|
  {
    items == [] ||
    (var x, rest := items[0], ItemBytes(items[1..]);
     && 0 < x.tag < MAX_TAG && x.wt < 8
     && match DecodeRecord(fields, st, x.tag, x.wt, x.body + rest)
        case None => false
        case Some(Read(next, left)) => left == rest && Rows(fields, next, items[1..]))
  }

  lemma ItemRead(x: Item, rest: bytes)
    requires 0 < x.tag < MAX_TAG && x.wt < 8
    ensures var b := Key(x.tag, x.wt) + x.body + rest;
      && b != [] && DecodeVarint32(b) == Some(Read(8 * x.tag + x.wt, x.body + rest))
      && (8 * x.tag + x.wt) / 8 == x.tag && (8 * x.tag + x.wt) % 8 == x.wt
  {
    assert Key(x.tag, x.wt) + x.body + rest == Key(x.tag, x.wt) + (x.body + rest);
    PbRoundTrip.KeyDecodes(x.tag, x.wt, x.body + rest);
  }

  function TagsOf(items: seq<Item>): set<nat>
  {
    if items == [] then {} else {items[0].tag} + TagsOf(items[1..])
  }

  lemma {:induction false} TagsOfAll(items: seq<Item>, t: nat)
    ensures t in TagsOf(items) <==> exists i :: 0 <= i < |items| && items[i].tag == t
    decreases |items|
  {
    if items != [] {
      TagsOfAll(items[1..], t);
      if t in TagsOf(items[1..]) {
        var i :| 0 <= i < |items[1..]| && items[1..][i].tag == t;
        assert items[i + 1].tag == t;
      } else if exists i :: 0 <= i < |items| && items[i].tag == t {
        var i :| 0 <= i < |items| && items[i].tag == t;
        assert i > 0 ==> items[1..][i - 1].tag == t;
      }
    }
  }

  lemma {:induction false} RowsDecode(fields: seq<Field>, st: State, items: seq<Item>)
    requires Rows(fields, st, items)
    ensures DecodeRecords(fields, st, ItemBytes(items)).Some?
    ensures TagsIn(fields, st, ItemBytes(items)) == TagsOf(items)
    decreases |items|
  {
    if items != [] {
      var x, rest := items[0], ItemBytes(items[1..]);
      ItemRead(x, rest);
      var next := DecodeRecord(fields, st, x.tag, x.wt, x.body + rest).value.value;
      RowsDecode(fields, next, items[1..]);
      assert TagsIn(fields, st, ItemBytes(items)) == {x.tag} + TagsIn(fields, next, rest);
    }
  }

  /**
   Records in a row, each of a field that is known and decodes or of one that is not and can be skipped, are
   refused exactly if there is a required field, with fewer than 64 required ones before it, that none
   of them carries.
   */
  lemma MissingFieldIsRefused(fields: seq<Field>, m: Message, items: seq<Item>)
    requires DescriptorOk(fields) && Rows(fields, State(m, {}), items)
    ensures Decode(fields, m, ItemBytes(items)).None? <==>
      exists i: nat :: Checked(fields, i) && forall k :: 0 <= k < |items| ==> items[k].tag != fields[i].tag
  {
    RowsDecode(fields, State(m, {}), items);
    RefusedExactlyIfMissing(fields, m, ItemBytes(items));
    forall i: nat | Checked(fields, i)
      ensures fields[i].tag in TagsOf(items) <==> exists k :: 0 <= k < |items| && items[k].tag == fields[i].tag
    {
      TagsOfAll(items, fields[i].tag);
    }
  }
}
