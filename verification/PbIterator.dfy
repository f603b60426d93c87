/**
 nanopb's field iterator: a position in a descriptor that wraps around, with the data pointer and
 the number of required fields passed carried along.
 */
module PbIterator {
  import opened Wrappers
  import opened PbSchema

  class FieldIter {
    const fields: seq<Field>
    var pos: nat
    var data: nat             // the slot the data pointer points at
    var requiredIndex: nat

    /** At every position, the pointer and the count are what walking there from the start would give. */
    ghost predicate Valid()
      reads this
    {
      if fields == [] then pos == 0 && data == 0 && requiredIndex == 0
      else pos < |fields| && data == SlotOf(fields, pos) && requiredIndex == RequiredBefore(fields, pos)
    }

    constructor (fields: seq<Field>)
      ensures Valid() && this.fields == fields && pos == 0
    {
      this.fields := fields;
      pos, data, requiredIndex := 0, 0, 0;
    }

    method Begin() returns (more: bool)
      modifies this
      ensures Valid() && pos == 0 && more == (fields != [])
    {
      pos, data, requiredIndex := 0, 0, 0;
      more := fields != [];
    }

    /** To the next field; past the last one, back to the first and false. */
    method Next() returns (more: bool)
      requires Valid()
      modifies this
      ensures Valid()
      ensures fields != [] ==> pos == if old(pos) + 1 < |fields| then old(pos) + 1 else 0
      ensures more == (fields != [] && old(pos) + 1 < |fields|)
    {
      if fields == [] {
        return false;
      }
      var prev := fields[pos];
      pos := pos + 1;
      if pos == |fields| {
        more := Begin();
        return false;
      }
      if prev.htype == Oneof && fields[pos].htype == Oneof && fields[pos].contd {
        // Two members of one oneof have the same slot.
        return true;
      }
      if prev.htype == Required {
        requiredIndex := requiredIndex + 1;
      }
      data := data + 1;
      return true;
    }

    /**
     Searches forward and around from the current position; `visited` are the positions looked at,
     each at most once. In a message type without fields, number 0 matches the terminator.
     */
    method Seek(tag: nat) returns (found: bool, ghost visited: seq<nat>)
      requires Valid()
      modifies this
      ensures Valid()
      ensures |visited| <= |fields|
      ensures forall i, j :: 0 <= i < j < |visited| ==> visited[i] != visited[j]
      ensures forall i :: 0 <= i < |visited| ==> visited[i] == Around(old(pos), i)
      ensures fields != [] && found ==> visited != [] && visited[|visited| - 1] == pos
      ensures fields != [] && !found ==> |visited| == |fields|
      ensures fields == [] ==> found == (tag == 0)
      ensures fields != [] ==> found == Find(fields, tag).Some?
      ensures fields != [] && found ==> fields[pos].tag == tag
      ensures !found ==> pos == old(pos)
    {
      var start := pos;
      visited := [];
      if fields == [] {
        return tag == 0, visited;
      }
      while true
        invariant Valid() && 0 <= |visited| < |fields| && pos == Around(start, |visited|)
        invariant forall i :: 0 <= i < |visited| ==> visited[i] == Around(start, i)
        invariant forall i :: 0 <= i < |fields| && Passed(start, |visited|, i) ==> fields[i].tag != tag
        decreases |fields| - |visited|
      {
        visited := visited + [pos];
        if fields[pos].tag == tag {
          return true, visited;
        }
        var more := Next();
        if pos == start {
          break;
        }
      }
      assert forall i :: 0 <= i < |fields| ==> Passed(start, |visited|, i);
      return false, visited;
    }

    /** The position `steps` after `start`, around the end. */
    function Around(start: nat, steps: nat): int
    {
      if start + steps < |fields| then start + steps else start + steps - |fields|
    }

    /** Position `i` is among the `steps` positions from `start` on, around the end. */
    ghost predicate Passed(start: nat, steps: nat, i: int)
    {
      start <= i < start + steps || start <= i + |fields| < start + steps
    }

    /** The number of required fields, found by walking to the end from wherever the iterator stands. */
    method CountRequired() returns (count: nat)
      requires Valid()
      modifies this
      ensures Valid() && count == RequiredBefore(fields, |fields|)
    {
      count := requiredIndex;
      var lastRequired := fields != [] && fields[pos].htype == Required;
      var more := true;
      if fields == [] {
        return 0;
      }
      while more
        invariant Valid() && fields != []
        invariant !more ==> pos == 0 && count == RequiredBefore(fields, |fields| - 1)
        invariant !more ==> lastRequired == (fields[|fields| - 1].htype == Required)
        decreases more, |fields| - pos
      {
        count := requiredIndex;
        lastRequired := fields[pos].htype == Required;
        more := Next();
      }
      // `requiredIndex` counts only the fields before a position.
      if lastRequired {
        count := count + 1;
      }
    }
  }
}
