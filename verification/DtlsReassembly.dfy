/**
 One incoming DTLS handshake message under reassembly (RFC 6347, section 4.2.3).

 `HmFragment` keeps the message buffer and, while bytes are missing, a bitmask with one bit
 per body byte. Its abstract value `Cells()` has one cell per body byte, empty until the byte
 has arrived; `Overlay` is what one fragment does to those cells.
 */
module DtlsReassembly {
  import opened Wrappers
  import opened Bytes

  const HM_HEADER_LENGTH := 12

  datatype Header = Header(typ: u8, msgLen: u24, seqNo: u16, fragOff: u24, fragLen: u24)

  function WireHeader(h: Header): (b: bytes)
    ensures |b| == HM_HEADER_LENGTH
  {
    [h.typ] + EncodeU24(h.msgLen) + EncodeU16(h.seqNo) + EncodeU24(h.fragOff) + EncodeU24(h.fragLen)
  }

  datatype Fragment = Fragment(hdr: Header, body: bytes, rest: bytes)

  /** Splits the first handshake fragment off `cbs`. */
  function ParseFragment(cbs: bytes): (r: Option<Fragment>)
    ensures r.Some? ==> |r.value.body| == r.value.hdr.fragLen && |r.value.rest| < |cbs|
  {
    if |cbs| < HM_HEADER_LENGTH then None else
    var h := Header(cbs[0], DecodeU24(cbs[1..4]), DecodeU16(cbs[4..6]), DecodeU24(cbs[6..9]), DecodeU24(cbs[9..12]));
    if |cbs| < HM_HEADER_LENGTH + h.fragLen then None else
    Some(Fragment(h, cbs[12..12 + h.fragLen], cbs[12 + h.fragLen..]))
  }

  lemma HeaderFields(h: Header)
    ensures var w := WireHeader(h);
      w[0] == h.typ && DecodeU24(w[1..4]) == h.msgLen && DecodeU16(w[4..6]) == h.seqNo &&
      DecodeU24(w[6..9]) == h.fragOff && DecodeU24(w[9..12]) == h.fragLen
  {
    FiveParts([h.typ], EncodeU24(h.msgLen), EncodeU16(h.seqNo), EncodeU24(h.fragOff), EncodeU24(h.fragLen));
  }

  lemma FiveParts(a: bytes, b: bytes, c: bytes, d: bytes, e: bytes)
    requires |a| == 1 && |b| == 3 && |c| == 2 && |d| == 3 && |e| == 3
    ensures var w := a + b + c + d + e;
      |w| == 12 && w[0] == a[0] && w[1..4] == b && w[4..6] == c && w[6..9] == d && w[9..12] == e
  {
    var w := a + b + c + d + e;
    assert w == (a + b + c + d) + e && w[9..12] == w[9..] == e;
    assert (a + b + c + d)[6..9] == d;
    assert (a + b + c)[4..6] == c && (a + b)[1..4] == b;
  }

  /** The twelve octets of RFC 6347, section 4.2.2, with the high octet of every number first. */
  lemma HeaderOctets(h: Header)
    ensures var w := WireHeader(h);
      && w[0] == h.typ && 0x1_0000 * w[1] as int + 0x100 * w[2] as int + w[3] == h.msgLen
      && 0x100 * w[4] as int + w[5] == h.seqNo
      && 0x1_0000 * w[6] as int + 0x100 * w[7] as int + w[8] == h.fragOff
      && 0x1_0000 * w[9] as int + 0x100 * w[10] as int + w[11] == h.fragLen
  {
    var w := WireHeader(h);
    HeaderFields(h);
    assert w[1..4] == [w[1], w[2], w[3]] && w[4..6] == [w[4], w[5]];
    assert w[6..9] == [w[6], w[7], w[8]] && w[9..12] == [w[9], w[10], w[11]];
  }

  lemma Octets24(b: bytes)
    requires |b| == 3
    ensures EncodeU24(DecodeU24(b)) == b
  {
    var n := DecodeU24(b);
    assert n / 0x1_0000 == b[0] && n / 0x100 == b[0] as int * 0x100 + b[1] && n % 0x100 == b[2];
  }

  /** What parses was framed so: nothing else is taken for a fragment. */
  lemma FramingInvertsParse(cbs: bytes)
    requires ParseFragment(cbs).Some?
    ensures var f := ParseFragment(cbs).value; cbs == WireHeader(f.hdr) + f.body + f.rest
  {
    var f := ParseFragment(cbs).value;
    Octets24(cbs[1..4]);
    Octets24(cbs[6..9]);
    Octets24(cbs[9..12]);
    assert EncodeU16(f.hdr.seqNo) == cbs[4..6];
    assert cbs == [cbs[0]] + cbs[1..4] + cbs[4..6] + cbs[6..9] + cbs[9..12] + f.body + f.rest;
  }

  /** Parsing inverts framing, whatever follows the fragment. */
  lemma ParseInvertsFraming(h: Header, body: bytes, rest: bytes)
    requires |body| == h.fragLen
    ensures ParseFragment(WireHeader(h) + body + rest) == Some(Fragment(h, body, rest))
  {
    HeaderFields(h);
    var w := WireHeader(h);
    var cbs := w + body + rest;
    assert cbs[1..4] == w[1..4] && cbs[4..6] == w[4..6] && cbs[6..9] == w[6..9] && cbs[9..12] == w[9..12];
    assert cbs[12..12 + |body|] == body && cbs[12 + |body|..] == rest;
  }

  // ---------------------------------------------------------------------------------------
  // Cells: what has arrived so far.

  type Cells = seq<Option<u8>>

  function Empty(n: nat): (c: Cells)
    ensures |c| == n
  {
    seq(n, i => None)
  }

  /** The cells after the bytes `body` have been received at offset `off`. */
  function Overlay(cells: Cells, off: nat, body: bytes): (r: Cells)
    requires off + |body| <= |cells|
    ensures |r| == |cells|
  {
    seq(|cells|, i requires 0 <= i < |cells| =>
      if off <= i < off + |body| then Some(body[i - off]) else cells[i])
  }

  predicate Complete(cells: Cells)
  {
    forall i :: 0 <= i < |cells| ==> cells[i].Some?
  }

  function Contents(cells: Cells): (b: bytes)
    requires Complete(cells)
    ensures |b| == |cells|
  {
    seq(|cells|, i requires 0 <= i < |cells| => cells[i].value)
  }

  /** Every byte that has arrived is the byte of `body` at its position. */
  predicate AgreesWith(cells: Cells, body: bytes)
  {
    |cells| == |body| && forall i :: 0 <= i < |cells| && cells[i].Some? ==> cells[i].value == body[i]
  }

  datatype Piece = Piece(off: nat, body: bytes)

  predicate InRange(p: Piece, n: nat)
  {
    p.off + |p.body| <= n
  }

  /** What the receiver does with a run of pieces: a message that is already whole ignores them. */
  function OverlayAll(cells: Cells, ps: seq<Piece>): (r: Cells)
    requires forall p :: p in ps ==> InRange(p, |cells|)
    ensures |r| == |cells|
    decreases |ps|
  {
    if ps == [] then cells
    else
      var before := OverlayAll(cells, ps[..|ps| - 1]);
      var p := ps[|ps| - 1];
      assert InRange(p, |cells|);
      if Complete(before) then before else Overlay(before, p.off, p.body)
  }

  predicate Covers(p: Piece, i: int)
  {
    p.off <= i < p.off + |p.body|
  }

  ghost predicate Covered(ps: seq<Piece>, i: int)
  {
    exists p :: p in ps && Covers(p, i)
  }

  /**
   Reassembly exactness: in any order, with any overlap and duplication, the bytes marked are
   exactly the union of the ranges received, so the message is whole exactly when the ranges
   cover it.
   */
  lemma {:induction false} MarkedIsUnion(n: nat, ps: seq<Piece>)
    requires forall p :: p in ps ==> InRange(p, n)
    ensures forall i :: 0 <= i < n ==> (OverlayAll(Empty(n), ps)[i].Some? <==> Covered(ps, i))
    ensures Complete(OverlayAll(Empty(n), ps)) <==> forall i :: 0 <= i < n ==> Covered(ps, i)
    decreases |ps|
  {
    if ps != [] {
      var init, last := ps[..|ps| - 1], ps[|ps| - 1];
      assert InRange(last, n);
      MarkedIsUnion(n, init);
      var before := OverlayAll(Empty(n), init);
      forall i | 0 <= i < n
        ensures OverlayAll(Empty(n), ps)[i].Some? <==> Covered(ps, i)
      {
        if before[i].Some? {
          var p :| p in init && Covers(p, i);
          assert p in ps;
        } else if Covers(last, i) {
          assert last in ps;
        } else {
          forall p | p in ps && Covers(p, i) ensures p in init {}
        }
      }
    }
  }

  /** Piece `j` came before the message was whole; later ones are ignored. */
  predicate Counts(n: nat, ps: seq<Piece>, j: nat)
    requires forall p :: p in ps ==> InRange(p, n)
  {
    j < |ps| && !Complete(OverlayAll(Empty(n), ps[..j]))
  }

  /** Byte `i` is that of piece `j`, and no later one that counts covers it. */
  ghost predicate WrittenLast(n: nat, ps: seq<Piece>, i: nat, j: nat)
    requires i < n && forall p :: p in ps ==> InRange(p, n)
  {
    && Counts(n, ps, j) && Covers(ps[j], i)
    && OverlayAll(Empty(n), ps)[i] == Some(ps[j].body[i - ps[j].off])
    && forall l :: j < l < |ps| && Counts(n, ps, l) ==> !Covers(ps[l], i)
  }

  /** A piece that does not count or does not cover a byte leaves it. */
  lemma LastPieceSpares(n: nat, ps: seq<Piece>, i: nat)
    requires i < n && ps != [] && forall p :: p in ps ==> InRange(p, n)
    requires !(Counts(n, ps, |ps| - 1) && Covers(ps[|ps| - 1], i))
    ensures OverlayAll(Empty(n), ps)[i] == OverlayAll(Empty(n), ps[..|ps| - 1])[i]
  {
    assert InRange(ps[|ps| - 1], n);
  }

  lemma StaysLast(n: nat, ps: seq<Piece>, i: nat, j: nat)
    requires i < n && ps != [] && forall p :: p in ps ==> InRange(p, n)
    requires !(Counts(n, ps, |ps| - 1) && Covers(ps[|ps| - 1], i))
    requires WrittenLast(n, ps[..|ps| - 1], i, j)
    ensures WrittenLast(n, ps, i, j)
  {
    var init := ps[..|ps| - 1];
    LastPieceSpares(n, ps, i);
    assert ps[..j] == init[..j];
    forall l | j < l < |ps| && Counts(n, ps, l) ensures !Covers(ps[l], i) {
      if l < |init| {
        assert ps[..l] == init[..l];
        assert Counts(n, init, l);
      }
    }
  }

  /** A byte that has arrived is that of the last piece to cover it before the message was whole. */
  lemma {:induction false} MarkedByteIsLast(n: nat, ps: seq<Piece>, i: nat) returns (j: nat)
    requires i < n && forall p :: p in ps ==> InRange(p, n)
    requires OverlayAll(Empty(n), ps)[i].Some?
    ensures WrittenLast(n, ps, i, j)
    decreases |ps|
  {
    if Counts(n, ps, |ps| - 1) && Covers(ps[|ps| - 1], i) {
      j := |ps| - 1;
    } else {
      LastPieceSpares(n, ps, i);
      j := MarkedByteIsLast(n, ps[..|ps| - 1], i);
      StaysLast(n, ps, i, j);
    }
  }

  /** If every piece is a slice of one body, what has arrived always agrees with that body. */
  lemma {:induction false} SlicesAgree(body: bytes, ps: seq<Piece>)
    requires forall p :: p in ps ==> InRange(p, |body|) && p.body == body[p.off..p.off + |p.body|]
    ensures AgreesWith(OverlayAll(Empty(|body|), ps), body)
    decreases |ps|
  {
    if ps != [] {
      var last := ps[|ps| - 1];
      assert last in ps;
      SlicesAgree(body, ps[..|ps| - 1]);
    }
  }

  /** ... and once whole it is that body, byte for byte. */
  lemma AgreeingContents(cells: Cells, body: bytes)
    requires AgreesWith(cells, body) && Complete(cells)
    ensures Contents(cells) == body
  {
    forall i | 0 <= i < |body| ensures Contents(cells)[i] == body[i] {
      assert cells[i].Some?;
    }
  }

  // ---------------------------------------------------------------------------------------
  // The bitmask.

  function Mask(k: nat): bv8
    requires k < 8
  {
    if k == 0 then 1 else if k == 1 then 2 else if k == 2 then 4 else if k == 3 then 8
    else if k == 4 then 16 else if k == 5 then 32 else if k == 6 then 64 else 128
  }

  predicate Bit(b: bv8, k: nat)
    requires k < 8
  {
    b & Mask(k) != 0
  }

  /** The low `n` bits. */
  function LowBits(n: nat): bv8
    requires n <= 8
  {
    if n == 0 then 0 else if n == 1 then 1 else if n == 2 then 3 else if n == 3 then 7 else if n == 4 then 15
    else if n == 5 then 31 else if n == 6 then 63 else if n == 7 then 127 else 255
  }

  /** The table is the low octet of `(1u << n) - 1`. */
  lemma LowBitsIsShift(n: nat)
    requires n <= 8
    ensures LowBits(n) == ((((1 as bv32) << n) - 1) & 0xff) as bv8
  {
    if n == 0 {} else if n == 1 {} else if n == 2 {} else if n == 3 {} else if n == 4 {}
    else if n == 5 {} else if n == 6 {} else if n == 7 {} else { assert n == 8; }
  }

  lemma LowBitsBit(n: nat, k: nat)
    requires n <= 8 && k < 8
    ensures Bit(LowBits(n), k) <==> k < n
  {
  }

  /** A byte with bits `start` up to but not including `end` set. */
  function BitRange(start: nat, end: nat): bv8
    requires start <= 8 && end <= 8
  {
    !LowBits(start) & LowBits(end)
  }

  lemma BitOps(a: bv8, b: bv8, k: nat)
    requires k < 8
    ensures Bit(a | b, k) <==> Bit(a, k) || Bit(b, k)
    ensures Bit(!a & b, k) <==> !Bit(a, k) && Bit(b, k)
  {
  }

  lemma BitRangeBit(start: nat, end: nat, k: nat)
    requires start <= 8 && end <= 8 && k < 8
    ensures Bit(BitRange(start, end), k) <==> start <= k < end
  {
    LowBitsBit(start, k);
    LowBitsBit(end, k);
    BitOps(LowBits(start), LowBits(end), k);
  }

  lemma BitsOfFull(b: bv8)
    ensures b == 0xff <==> forall k :: 0 <= k < 8 ==> Bit(b, k)
  {
    if forall k :: 0 <= k < 8 ==> Bit(b, k) {
      assert Bit(b, 0) && Bit(b, 1) && Bit(b, 2) && Bit(b, 3) && Bit(b, 4) && Bit(b, 5) && Bit(b, 6) && Bit(b, 7);
    }
  }

  lemma BitsOfLow(b: bv8, n: nat)
    requires n <= 8 && forall k :: n <= k < 8 ==> !Bit(b, k)
    ensures b == BitRange(0, n) <==> forall k :: 0 <= k < n ==> Bit(b, k)
  {
    forall k | 0 <= k < 8 ensures Bit(BitRange(0, n), k) <==> k < n { BitRangeBit(0, n, k); }
    if forall k :: 0 <= k < n ==> Bit(b, k) {
      SameBits(b, BitRange(0, n));
    }
  }

  lemma SameBits(a: bv8, b: bv8)
    requires forall k :: 0 <= k < 8 ==> Bit(a, k) == Bit(b, k)
    ensures a == b
  {
    assert Bit(a, 0) == Bit(b, 0) && Bit(a, 1) == Bit(b, 1) && Bit(a, 2) == Bit(b, 2) && Bit(a, 3) == Bit(b, 3);
    assert Bit(a, 4) == Bit(b, 4) && Bit(a, 5) == Bit(b, 5) && Bit(a, 6) == Bit(b, 6) && Bit(a, 7) == Bit(b, 7);
  }

  predicate BitAt(mask: seq<bv8>, i: nat)
    requires i / 8 < |mask|
  {
    Bit(mask[i / 8], i % 8)
  }

  /**
   Octet `j` of a mask, `was` before and `now` after the range from bit `sk` of octet `sj`
   up to but not including bit `ek` of octet `ej` is set.
   */
  predicate OctetMarked(was: bv8, now: bv8, sj: nat, sk: nat, ej: nat, ek: nat, j: nat)
    requires sk < 8 && ek < 8
  {
    if sj == ej then now == (if j == sj then was | BitRange(sk, ek) else was)
    else if j == sj then now == was | BitRange(sk, 8)
    else if sj < j < ej then now == 0xff
    else if j == ej && ek != 0 then now == was | BitRange(0, ek)
    else now == was
  }

  lemma OrRangeBit(was: bv8, lo: nat, hi: nat, k: nat)
    requires lo <= 8 && hi <= 8 && k < 8
    ensures Bit(was | BitRange(lo, hi), k) <==> Bit(was, k) || lo <= k < hi
  {
    BitOps(was, BitRange(lo, hi), k);
    BitRangeBit(lo, hi, k);
  }

  /** Bit `k` of octet `j` lies in the range from `start` to `end`, read off the octet and bit numbers. */
  predicate InOctet(sj: nat, sk: nat, ej: nat, ek: nat, j: nat, k: nat)
  {
    if sj == ej then j == sj && sk <= k < ek
    else if j == sj then sk <= k
    else if sj < j < ej then true
    else j == ej && k < ek
  }

  lemma InOctetIsInRange(sj: nat, sk: nat, ej: nat, ek: nat, j: nat, k: nat)
    requires sk < 8 && ek < 8 && k < 8 && 8 * sj + sk < 8 * ej + ek
    ensures InOctet(sj, sk, ej, ek, j, k) <==> 8 * sj + sk <= 8 * j + k < 8 * ej + ek
  {
  }

  lemma OctetMarkedBit(was: bv8, now: bv8, sj: nat, sk: nat, ej: nat, ek: nat, j: nat, k: nat)
    requires sk < 8 && ek < 8 && k < 8 && OctetMarked(was, now, sj, sk, ej, ek, j)
    ensures Bit(now, k) <==> Bit(was, k) || InOctet(sj, sk, ej, ek, j, k)
  {
    if sj == ej {
      if j == sj { OrRangeBit(was, sk, ek, k); }
    } else if j == sj {
      OrRangeBit(was, sk, 8, k);
    } else if sj < j < ej {
      BitsOfFull(0xff);
      assert Bit(0xff, k);
    } else if j == ej && ek != 0 {
      OrRangeBit(was, 0, ek, k);
    }
  }

  /** Sets bits `start` up to but not including `end` of a bitmask, a whole octet at a time. */
  method SetBits(mask: array<bv8>, start: nat, end: nat)
    requires start < end <= 8 * mask.Length
    modifies mask
    ensures forall i :: 0 <= i < 8 * mask.Length ==>
      (BitAt(mask[..], i) <==> BitAt(old(mask[..]), i) || start <= i < end)
  {
    if start / 8 == end / 8 {
      mask[start / 8] := mask[start / 8] | BitRange(start % 8, end % 8);
    } else {
      mask[start / 8] := mask[start / 8] | BitRange(start % 8, 8);
      var i := start / 8 + 1;
      while i < end / 8
        invariant start / 8 + 1 <= i <= end / 8
        invariant forall j :: 0 <= j < mask.Length ==>
          mask[j] == (if j == start / 8 then old(mask[j]) | BitRange(start % 8, 8)
                      else if start / 8 < j < i then 0xff else old(mask[j]))
      {
        mask[i] := 0xff;
        i := i + 1;
      }
      if end % 8 != 0 {
        mask[end / 8] := mask[end / 8] | BitRange(0, end % 8);
      }
    }
    forall i | 0 <= i < 8 * mask.Length
      ensures BitAt(mask[..], i) <==> BitAt(old(mask[..]), i) || start <= i < end
    {
      OctetMarkedBit(old(mask[..])[i / 8], mask[i / 8], start / 8, start % 8, end / 8, end % 8, i / 8, i % 8);
      InOctetIsInRange(start / 8, start % 8, end / 8, end % 8, i / 8, i % 8);
    }
  }

  /** The bits of the octet that holds the end of the first `n`. */
  lemma LastOctet(mask: seq<bv8>, n: nat)
    requires n % 8 != 0 && |mask| == n / 8 + 1 && forall i :: n <= i < 8 * |mask| ==> !BitAt(mask, i)
    ensures mask[n / 8] == BitRange(0, n % 8) <==> forall i :: 8 * (n / 8) <= i < n ==> BitAt(mask, i)
  {
    var last, m := n / 8, n % 8;
    forall b | m <= b < 8 ensures !Bit(mask[last], b) {
      assert !BitAt(mask, 8 * last + b);
    }
    BitsOfLow(mask[last], m);
    forall b | 0 <= b < m ensures Bit(mask[last], b) == BitAt(mask, 8 * last + b) {
    }
    if forall i :: 8 * last <= i < n ==> BitAt(mask, i) {
      forall b | 0 <= b < m ensures Bit(mask[last], b) {
        assert BitAt(mask, 8 * last + b);
      }
    }
  }

  /** Whether the first `n` bits are all set, given that no bit from `n` on is. */
  method AllSet(mask: array<bv8>, n: nat) returns (all: bool)
    requires mask.Length == (n + 7) / 8
    requires forall i :: n <= i < 8 * mask.Length ==> !BitAt(mask[..], i)
    ensures all <==> forall i :: 0 <= i < n ==> BitAt(mask[..], i)
  {
    var k := 0;
    while k < n / 8
      invariant 0 <= k <= n / 8
      invariant forall i :: 0 <= i < 8 * k ==> BitAt(mask[..], i)
    {
      BitsOfFull(mask[k]);
      if mask[k] != 0xff {
        var b :| 0 <= b < 8 && !Bit(mask[k], b);
        assert !BitAt(mask[..], 8 * k + b);
        return false;
      }
      k := k + 1;
    }
    if n % 8 != 0 {
      LastOctet(mask[..], n);
      if mask[n / 8] != BitRange(0, n % 8) {
        return false;
      }
    }
    return true;
  }

  // ---------------------------------------------------------------------------------------

  class HmFragment {
    const typ: u8
    const seqNo: u16
    const msgLen: u24
    const data: array<u8>         // header and body
    var reassembly: array?<bv8>   // null once every byte has arrived
    ghost const Repr: set<object>

    ghost predicate Valid()
      reads this, Repr
      ensures Valid() ==> this in Repr
    {
      && this in Repr && data in Repr
      && data.Length == HM_HEADER_LENGTH + msgLen
      && data[..HM_HEADER_LENGTH] == WireHeader(Header(typ, msgLen, seqNo, 0, msgLen))
      && (reassembly != null ==>
            && reassembly in Repr
            && reassembly.Length == (msgLen + 7) / 8
            && (forall i :: msgLen <= i < 8 * reassembly.Length ==> !BitAt(reassembly[..], i))
            && exists i :: 0 <= i < msgLen && !BitAt(reassembly[..], i))
    }

    ghost predicate Got(i: nat)
      requires Valid() && i < msgLen
      reads this, Repr
    {
      reassembly == null || BitAt(reassembly[..], i)
    }

    /** The abstract value: what has arrived of the body. */
    ghost function Cells(): (c: Cells)
      requires Valid()
      reads this, Repr
      ensures |c| == msgLen
    {
      seq(msgLen, i requires 0 <= i < msgLen reads this, Repr requires Valid() =>
        if Got(i) then Some(data[HM_HEADER_LENGTH + i]) else None)
    }

    constructor (hdr: Header)
      ensures Valid() && fresh(Repr)
      ensures typ == hdr.typ && seqNo == hdr.seqNo && msgLen == hdr.msgLen
      ensures Cells() == Empty(msgLen)
    {
      typ, seqNo, msgLen := hdr.typ, hdr.seqNo, hdr.msgLen;
      data := new u8[HM_HEADER_LENGTH + hdr.msgLen];
      // An empty body has no byte to be missed.
      reassembly := null;
      if hdr.msgLen > 0 {
        var mask := new bv8[(hdr.msgLen + 7) / 8](_ => 0);
        reassembly := mask;
        Repr := {this, data, mask};
      } else {
        Repr := {this, data};
      }
      new;
      var w := WireHeader(Header(typ, msgLen, seqNo, 0, msgLen));
      forall i | 0 <= i < HM_HEADER_LENGTH {
        data[i] := w[i];
      }
      assert data[..HM_HEADER_LENGTH] == w;
      assert msgLen > 0 ==> !BitAt(reassembly[..], 0);
    }

    /** Marks bytes `start` up to but not including `end`, and drops the bitmask when none is missing. */
    method Mark(start: nat, end: nat)
      requires Valid() && reassembly != null && start <= end <= msgLen
      modifies this`reassembly, reassembly
      ensures Valid() && (reassembly != null ==> reassembly == old(reassembly))
      ensures forall i :: 0 <= i < msgLen ==> (Got(i) <==> old(Got(i)) || start <= i < end)
      ensures reassembly == null <==> forall i :: 0 <= i < msgLen ==> Got(i)
    {
      if start == end {
        ghost var i :| 0 <= i < msgLen && !BitAt(reassembly[..], i);
        assert !Got(i);
        return;
      }
      SetBits(reassembly, start, end);
      ghost var bits := reassembly[..];
      forall i | 0 <= i < msgLen ensures BitAt(bits, i) <==> old(Got(i)) || start <= i < end {
      }
      var complete := AllSet(reassembly, msgLen);
      if complete {
        forall i | 0 <= i < msgLen ensures old(Got(i)) || start <= i < end {
          assert BitAt(reassembly[..], i) && reassembly[..] == bits;
        }
        reassembly := null;
      } else {
        ghost var i :| 0 <= i < msgLen && !BitAt(reassembly[..], i);
        assert !Got(i);
      }
    }

    /** Copies one fragment's body in and marks it. */
    method Receive(off: nat, body: bytes)
      requires Valid() && reassembly != null && off + |body| <= msgLen
      modifies this`reassembly, data, reassembly
      ensures Valid() && (reassembly != null ==> reassembly == old(reassembly))
      ensures Cells() == Overlay(old(Cells()), off, body)
      ensures reassembly == null <==> Complete(Cells())
    {
      forall i | 0 <= i < |body| {
        data[HM_HEADER_LENGTH + off + i] := body[i];
      }
      assert data[..HM_HEADER_LENGTH] == old(data[..HM_HEADER_LENGTH]);
      assert reassembly[..] == old(reassembly[..]);
      Mark(off, off + |body|);
      if reassembly != null {
        ghost var i :| 0 <= i < msgLen && !Got(i);
        assert Cells()[i].None?;
      }
    }
  }
}
