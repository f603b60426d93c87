/**
 Base 128 varints of the Protocol Buffers encoding, as nanopb writes and reads them.

 The decoders gather bits with `|=` and `<<` into a word of 32 or 64 bits; `BitOr` and `Shl` are
 those operations on numbers, and the bit position wraps as nanopb's `uint_fast8_t` does.
 */
module PbVarint {
  import opened Wrappers
  import opened Bytes

  const LIMIT32 := 0x1_0000_0000
  const LIMIT64 := 0x1_0000_0000_0000_0000

  function Shl(c: nat, n: nat): nat
    decreases n
  {
    if n == 0 then c else Shl(2 * c, n - 1)
  }

  /** Bitwise or of two numbers. */
  function BitOr(a: nat, b: nat): nat
    decreases a + b
  {
    if a == 0 then b else if b == 0 then a
    else (if a % 2 == 1 || b % 2 == 1 then 1 else 0) + 2 * BitOr(a / 2, b / 2)
  }

  datatype Read<+T> = Read(value: T, rest: bytes)

  // ---------------------------------------------------------------------------------------

  /** The canonical varint: seven bits to a byte, lowest first, the top bit on all but the last. */
  function EncodeVarint(v: nat): (b: bytes)
    ensures |b| > 0
  {
    if v <= 0x7f then [v] else [v % 0x80 + 0x80] + EncodeVarint(v / 0x80)
  }

  /** `word |= (byte & 0x7f) << bitpos` in a word of `limit` values. */
  function Gather(word: nat, byte: u8, bitpos: nat, limit: nat): nat
    requires limit > 0
  {
    BitOr(word, Shl(byte % 0x80, bitpos) % limit)
  }

  function DecodeVarint64From(b: bytes, bitpos: nat, word: nat): (r: Option<Read<nat>>)
    ensures r.Some? ==> |r.value.rest| < |b|
    decreases |b|
  {
    if bitpos >= 64 || b == [] then None else
    var word' := Gather(word, b[0], bitpos, LIMIT64);
    if b[0] >= 0x80 then DecodeVarint64From(b[1..], (bitpos + 7) % 0x100, word') else Some(Read(word', b[1..]))
  }

  function DecodeVarint64(b: bytes): (r: Option<Read<nat>>)
    ensures r.Some? ==> |r.value.rest| < |b|
  {
    DecodeVarint64From(b, 0, 0)
  }

  /** A byte beyond the 32nd bit must carry nothing, or repeat the sign of a negative number. */
  predicate OverflowByte(word: nat, byte: u8, bitpos: nat)
  {
    byte % 0x80 != 0 && (word < 0x8000_0000 || byte != (if bitpos < 63 then 0xff else 0x01))
  }

  function DecodeVarint32From(b: bytes, bitpos: nat, word: nat): (r: Option<Read<nat>>)
    ensures r.Some? ==> |r.value.rest| < |b|
    decreases |b|
  {
    if b == [] then None else
    if bitpos >= 32 && OverflowByte(word, b[0], bitpos) then None else
    var word' := if bitpos >= 32 then word else Gather(word, b[0], bitpos, LIMIT32);
    if b[0] >= 0x80 then DecodeVarint32From(b[1..], (bitpos + 7) % 0x100, word')
    else if bitpos == 28 && b[0] / 0x10 % 8 != 0 then None
    else Some(Read(word', b[1..]))
  }

  function DecodeVarint32(b: bytes): (r: Option<Read<nat>>)
    ensures r.Some? ==> |r.value.rest| < |b|
  {
    if b == [] then None
    else if b[0] < 0x80 then Some(Read(b[0], b[1..]))
    else DecodeVarint32From(b[1..], 7, b[0] % 0x80)
  }

  // ---------------------------------------------------------------------------------------
  // Shifts and ors.

  lemma {:induction false} ShlDouble(c: nat, n: nat)
    ensures Shl(2 * c, n) == 2 * Shl(c, n)
    decreases n
  {
    if n > 0 {
      ShlDouble(2 * c, n - 1);
    }
  }

  lemma {:induction false} ShlSum(a: nat, b: nat, n: nat)
    ensures Shl(a + b, n) == Shl(a, n) + Shl(b, n)
    decreases n
  {
    if n > 0 {
      ShlSum(2 * a, 2 * b, n - 1);
    }
  }

  lemma Shl7(c: nat, n: nat)
    ensures Shl(c, n + 7) == Shl(0x80 * c, n)
  {
    assert Shl(c, n + 7) == Shl(2 * c, n + 6);
    assert Shl(2 * c, n + 6) == Shl(4 * c, n + 5);
    assert Shl(4 * c, n + 5) == Shl(8 * c, n + 4);
    assert Shl(8 * c, n + 4) == Shl(16 * c, n + 3);
    assert Shl(16 * c, n + 3) == Shl(32 * c, n + 2);
    assert Shl(32 * c, n + 2) == Shl(64 * c, n + 1);
  }

  lemma ShlTable(c: nat)
    ensures Shl(c, 0) == c && Shl(c, 7) == 0x80 * c && Shl(c, 14) == 0x4000 * c && Shl(c, 21) == 0x20_0000 * c
    ensures Shl(c, 28) == 0x1000_0000 * c && Shl(c, 35) == 0x8_0000_0000 * c && Shl(c, 42) == 0x400_0000_0000 * c
    ensures Shl(c, 49) == 0x2_0000_0000_0000 * c && Shl(c, 56) == 0x100_0000_0000_0000 * c
    ensures Shl(c, 63) == 0x8000_0000_0000_0000 * c
  {
    ShlUp(c, 0, 1);
    ShlUp(c, 7, 0x80);
    ShlUp(c, 14, 0x4000);
    ShlUp(c, 21, 0x20_0000);
    ShlUp(c, 28, 0x1000_0000);
    ShlUp(c, 35, 0x8_0000_0000);
    ShlUp(c, 42, 0x400_0000_0000);
    ShlUp(c, 49, 0x2_0000_0000_0000);
    ShlUp(c, 56, 0x100_0000_0000_0000);
  }

  lemma ShlBy7(c: nat)
    ensures Shl(c, 7) == 0x80 * c
  {
    ShlTable(c);
  }

  lemma ShlBy28(c: nat)
    ensures Shl(c, 28) == 0x1000_0000 * c
  {
    ShlTable(c);
  }

  lemma ShlBy35(c: nat)
    ensures Shl(c, 35) == 0x8_0000_0000 * c
  {
    ShlTable(c);
  }

  lemma ShlBy63(c: nat)
    ensures Shl(c, 63) == 0x8000_0000_0000_0000 * c
  {
    ShlTable(c);
  }

  lemma ShlUp(c: nat, n: nat, w: nat)
    requires Shl(c, n) == w * c
    ensures Shl(c, n + 7) == 0x80 * (w * c)
  {
    Shl7(c, n);
    ShlDouble(c, n);
    ShlDouble(2 * c, n);
    ShlDouble(4 * c, n);
    ShlDouble(8 * c, n);
    ShlDouble(16 * c, n);
    ShlDouble(32 * c, n);
    ShlDouble(64 * c, n);
  }

  lemma {:induction false} ShlMonotone(a: nat, b: nat, n: nat)
    requires a <= b
    ensures Shl(a, n) <= Shl(b, n)
    decreases n
  {
    if n > 0 {
      ShlMonotone(2 * a, 2 * b, n - 1);
    }
  }

  /** Bits that do not meet are or-ed by adding. */
  lemma {:induction false} BitOrDisjoint(a: nat, c: nat, n: nat)
    requires a < Shl(1, n)
    ensures BitOr(a, Shl(c, n)) == a + Shl(c, n)
    decreases n
  {
    if n > 0 {
      ShlDouble(1, n - 1);
      ShlDouble(c, n - 1);
      if a != 0 && Shl(c, n) != 0 {
        BitOrDisjoint(a / 2, c, n - 1);
      }
    }
  }

  /** While the word holds only lower groups, gathering is adding, and the next groups are still free. */
  lemma GatherAdds(word: nat, byte: u8, i: nat, g: nat, limit: nat)
    requires limit > 0 && word < Shl(1, 7 * i) && g < 0x80 && Shl(byte % 0x80, 7 * i) % limit == Shl(g, 7 * i)
    ensures Gather(word, byte, 7 * i, limit) == word + Shl(g, 7 * i)
    ensures word + Shl(g, 7 * i) < Shl(1, 7 * (i + 1))
  {
    BitOrDisjoint(word, g, 7 * i);
    Shl7(1, 7 * i);
    ShlSum(1, g, 7 * i);
    ShlMonotone(1 + g, 0x80, 7 * i);
  }

  lemma NoTruncation(x: nat, i: nat)
    requires i <= 8 && x < 0x80
    ensures Shl(x, 7 * i) < LIMIT64 && (i <= 3 ==> Shl(x, 7 * i) < LIMIT32)
  {
    ShlTable(x);
    assert i == 0 || i == 1 || i == 2 || i == 3 || i == 4 || i == 5 || i == 6 || i == 7 || i == 8;
  }

  lemma SmallMod(x: nat, m: nat)
    requires x < m
    ensures x % m == x
  {
  }

  lemma LowBits(byte: u8)
    ensures byte % 0x80 % 2 == byte % 2 && byte % 0x80 % 16 == byte % 16
  {
  }

  lemma Kept(x: nat, i: nat, limit: nat)
    requires x < 0x80 && ((limit == LIMIT64 && i <= 8) || (limit == LIMIT32 && i <= 3))
    ensures Shl(x, 7 * i) % limit == Shl(x, 7 * i)
  {
    NoTruncation(x, i);
    SmallMod(Shl(x, 7 * i), limit);
  }

  /** The tenth group keeps one bit of 64. */
  lemma Tenth(byte: u8)
    ensures Shl(byte % 0x80, 63) % LIMIT64 == Shl(byte % 2, 63)
  {
    TopBit(byte % 0x80);
    LowBits(byte);
    ShlBy63(byte % 0x80);
    ShlBy63(byte % 2);
  }

  lemma TopBit(x: nat)
    ensures (0x8000_0000_0000_0000 * x) % LIMIT64 == 0x8000_0000_0000_0000 * (x % 2)
  {
    assert x == 2 * (x / 2) + x % 2;
  }

  /** The fifth group keeps four bits of 32. */
  lemma Fifth(byte: u8)
    ensures Shl(byte % 0x80, 28) % LIMIT32 == Shl(byte % 16, 28)
  {
    TopBits(byte % 0x80);
    LowBits(byte);
    ShlBy28(byte % 0x80);
    ShlBy28(byte % 16);
  }

  lemma TopBits(x: nat)
    ensures (0x1000_0000 * x) % LIMIT32 == 0x1000_0000 * (x % 16)
  {
    assert x == 16 * (x / 16) + x % 16;
  }

  /** Splitting a value into its lowest group and the rest. */
  lemma Regroup(v: nat, i: nat)
    ensures Shl(v % 0x80, 7 * i) + Shl(v / 0x80, 7 * (i + 1)) == Shl(v, 7 * i)
  {
    Shl7(v / 0x80, 7 * i);
    ShlSum(v % 0x80, 0x80 * (v / 0x80), 7 * i);
  }

  // ---------------------------------------------------------------------------------------
  // One byte at a time.

  lemma DropFirst(x: u8, tail: bytes, rest: bytes)
    ensures ([x] + tail + rest)[0] == x && ([x] + tail + rest)[1..] == tail + rest
  {
  }

  /** The first byte of a varint, and what is left after it. */
  lemma EncodedHead(v: nat, rest: bytes)
    ensures var b := EncodeVarint(v) + rest;
      b[0] == (if v <= 0x7f then v else v % 0x80 + 0x80) &&
      b[1..] == if v <= 0x7f then rest else EncodeVarint(v / 0x80) + rest
  {
    if v <= 0x7f {
      DropFirst(v, [], rest);
    } else {
      DropFirst(v % 0x80 + 0x80, EncodeVarint(v / 0x80), rest);
    }
  }

  lemma HeadGroup(v: nat)
    ensures (if v <= 0x7f then v else v % 0x80 + 0x80) % 0x80 == v % 0x80
    ensures (v % 0x80 + 0x80) % 16 == v % 16
  {
  }

  function Kept64(byte: u8, i: nat): nat
  {
    if i == 9 then byte % 2 else byte % 0x80
  }

  function Kept32(byte: u8, i: nat): nat
  {
    if i == 4 then byte % 16 else byte % 0x80
  }

  lemma Gather64(word: nat, byte: u8, i: nat)
    requires i <= 9 && word < Shl(1, 7 * i)
    ensures Gather(word, byte, 7 * i, LIMIT64) == word + Shl(Kept64(byte, i), 7 * i)
    ensures word + Shl(Kept64(byte, i), 7 * i) < Shl(1, 7 * (i + 1))
  {
    if i == 9 { Tenth(byte); } else { Kept(byte % 0x80, i, LIMIT64); }
    GatherAdds(word, byte, i, Kept64(byte, i), LIMIT64);
  }

  lemma Gather32(word: nat, byte: u8, i: nat)
    requires i <= 4 && word < Shl(1, 7 * i)
    ensures Gather(word, byte, 7 * i, LIMIT32) == word + Shl(Kept32(byte, i), 7 * i)
    ensures word + Shl(Kept32(byte, i), 7 * i) < Shl(1, 7 * (i + 1))
  {
    if i == 4 { Fifth(byte); } else { Kept(byte % 0x80, i, LIMIT32); }
    GatherAdds(word, byte, i, Kept32(byte, i), LIMIT32);
  }

  lemma Step64(b: bytes, i: nat, word: nat)
    requires b != [] && i <= 9 && word < Shl(1, 7 * i)
    ensures var word' := word + Shl(Kept64(b[0], i), 7 * i);
      && word' < Shl(1, 7 * (i + 1))
      && DecodeVarint64From(b, 7 * i, word) ==
           if b[0] >= 0x80 then DecodeVarint64From(b[1..], 7 * (i + 1), word') else Some(Read(word', b[1..]))
  {
    Gather64(word, b[0], i);
    assert (7 * i + 7) % 0x100 == 7 * (i + 1);
  }

  lemma HighNibble(byte: u8)
    ensures byte < 0x80 ==> (byte / 0x10 % 8 != 0 <==> byte >= 16)
  {
  }

  lemma Step32(b: bytes, i: nat, word: nat)
    requires b != [] && i <= 4 && word < Shl(1, 7 * i)
    ensures var word' := word + Shl(Kept32(b[0], i), 7 * i);
      && word' < Shl(1, 7 * (i + 1))
      && DecodeVarint32From(b, 7 * i, word) ==
           if b[0] >= 0x80 then DecodeVarint32From(b[1..], 7 * (i + 1), word')
           else if i == 4 && b[0] >= 16 then None
           else Some(Read(word', b[1..]))
  {
    Gather32(word, b[0], i);
    HighNibble(b[0]);
    assert (7 * i + 7) % 0x100 == 7 * (i + 1);
  }

  lemma Check32(b: bytes, i: nat, word: nat)
    requires b != [] && 5 <= i <= 9
    ensures DecodeVarint32From(b, 7 * i, word) ==
      if OverflowByte(word, b[0], 7 * i) then None
      else if b[0] >= 0x80 then DecodeVarint32From(b[1..], 7 * (i + 1), word)
      else Some(Read(word, b[1..]))
  {
    assert (7 * i + 7) % 0x100 == 7 * (i + 1);
  }

  // ---------------------------------------------------------------------------------------
  // The 64-bit decoder.

  lemma {:induction false} DecodeFrom64(v: nat, i: nat, word: nat, rest: bytes)
    requires i <= 9 && word < Shl(1, 7 * i) && Shl(v, 7 * i) < LIMIT64
    ensures DecodeVarint64From(EncodeVarint(v) + rest, 7 * i, word) == Some(Read(word + Shl(v, 7 * i), rest))
    decreases v
  {
    EncodedHead(v, rest);
    HeadGroup(v);
    TenthGroup(v, i);
    Step64(EncodeVarint(v) + rest, i, word);
    Regroup(v, i);
    if v <= 0x7f {
      assert v % 0x80 == v;
    } else {
      DecodeFrom64(v / 0x80, i + 1, word + Shl(v % 0x80, 7 * i), rest);
    }
  }

  lemma TenthGroup(v: nat, i: nat)
    requires Shl(v, 7 * i) < LIMIT64
    ensures i == 9 ==> v < 2
  {
    ShlBy63(v);
  }

  /** The 64-bit decoder inverts the encoder on every 64-bit value, whatever follows. */
  lemma Varint64RoundTrip(v: u64, rest: bytes)
    ensures DecodeVarint64(EncodeVarint(v) + rest) == Some(Read(v, rest))
  {
    DecodeFrom64(v, 0, 0, rest);
  }

  lemma {:induction false} VarintLength(v: nat, k: nat)
    requires v < Shl(1, 7 * k) && k >= 1
    ensures |EncodeVarint(v)| <= k
    decreases k
  {
    if v > 0x7f {
      Shl7(1, 7 * (k - 1));
      ShlSeven(k - 1);
      VarintLength(v / 0x80, k - 1);
    }
  }

  lemma ShlSeven(k: nat)
    ensures Shl(0x80, 7 * k) == 0x80 * Shl(1, 7 * k)
  {
    ShlUpOne(7 * k);
    Shl7(1, 7 * k);
  }

  lemma ShlUpOne(n: nat)
    ensures Shl(1, n + 7) == 0x80 * Shl(1, n)
  {
    Shl7(1, n);
    ShlDouble(1, n);
    ShlDouble(2, n);
    ShlDouble(4, n);
    ShlDouble(8, n);
    ShlDouble(16, n);
    ShlDouble(32, n);
    ShlDouble(64, n);
  }

  /** Ten bytes are enough for any 64-bit value. */
  lemma VarintFitsBuffer(v: u64)
    ensures |EncodeVarint(v)| <= 10
  {
    ShlTable(1);
    Shl7(1, 63);
    ShlTable(0x80);
    VarintLength(v, 10);
  }

  // ---------------------------------------------------------------------------------------
  // The 32-bit decoder.

  lemma {:induction false} ShlCompose(c: nat, m: nat, n: nat)
    ensures Shl(c, m + n) == Shl(Shl(c, m), n)
    decreases m
  {
    if m > 0 {
      ShlCompose(2 * c, m - 1, n);
    }
  }

  lemma HighGroup(g: nat, i: nat, word: nat)
    requires 5 <= i
    ensures (word + Shl(g, 7 * i)) % LIMIT32 == word % LIMIT32
  {
    var c := Shl(g, 7 * i - 35);
    ShlCompose(g, 7 * i - 35, 35);
    ShlBy35(c);
    Vanishes(word, 8 * c);
  }

  lemma {:induction false} Vanishes(w: nat, m: nat)
    ensures (w + m * LIMIT32) % LIMIT32 == w % LIMIT32
  {
    if m > 0 {
      Vanishes(w, m - 1);
      assert w + m * LIMIT32 == (w + (m - 1) * LIMIT32) + LIMIT32;
    }
  }

  lemma LowGroups(word: nat, i: nat)
    requires i <= 4 && word < Shl(1, 7 * i)
    ensures word < LIMIT32 && word % LIMIT32 == word
  {
    ShlTable(1);
    assert i == 0 || i == 1 || i == 2 || i == 3 || i == 4;
    SmallMod(word, LIMIT32);
  }

  lemma FifthGroup(word: nat, byte: u8)
    requires word < 0x1000_0000
    ensures (word + Shl(byte % 0x80, 28)) % LIMIT32 == word + Shl(byte % 16, 28)
  {
    var x, y := byte % 0x80, byte % 16;
    LowBits(byte);
    FullWord(word, x);
    ShlBy28(x);
    ShlBy28(y);
    assert x % 16 == y;
  }

  /** One byte keeps the two words equal modulo 2^32. */
  lemma StepAgrees(i: nat, w64: nat, w32: nat, byte: u8)
    requires i <= 9 && w64 < Shl(1, 7 * i) && w32 == w64 % LIMIT32
    ensures (w64 + Shl(Kept64(byte, i), 7 * i)) % LIMIT32 == if i <= 4 then w32 + Shl(Kept32(byte, i), 7 * i) else w32
  {
    if i >= 5 {
      HighGroup(Kept64(byte, i), i, w64);
    } else {
      LowGroups(w64, i);
      if i == 4 {
        ShlBy28(1);
        FifthGroup(w64, byte);
      } else {
        Gather64(w64, byte, i);
        LowGroups(w64 + Shl(Kept64(byte, i), 7 * i), i + 1);
      }
    }
  }

  lemma {:induction false} AgreeFrom(b: bytes, i: nat, w64: nat, w32: nat)
    requires i <= 10 && (i <= 9 ==> w64 < Shl(1, 7 * i)) && w32 == w64 % LIMIT32
    requires DecodeVarint64From(b, 7 * i, w64).Some? && DecodeVarint32From(b, 7 * i, w32).Some?
    ensures DecodeVarint32From(b, 7 * i, w32).value ==
      var r := DecodeVarint64From(b, 7 * i, w64).value; Read(r.value % LIMIT32, r.rest)
    decreases |b|
  {
    assert i <= 9 && b != [];
    Step64(b, i, w64);
    StepAgrees(i, w64, w32, b[0]);
    if i <= 4 {
      LowGroups(w64, i);
      Step32(b, i, w32);
    } else {
      Check32(b, i, w32);
    }
    if b[0] >= 0x80 {
      var word := w64 + Shl(Kept64(b[0], i), 7 * i);
      AgreeFrom(b[1..], i + 1, word, word % LIMIT32);
    }
  }

  /** On any input, whenever both decoders succeed, the 32-bit result is the 64-bit one modulo 2^32. */
  lemma DecodersAgree(b: bytes)
    requires DecodeVarint64(b).Some? && DecodeVarint32(b).Some?
    ensures DecodeVarint32(b).value == var r := DecodeVarint64(b).value; Read(r.value % LIMIT32, r.rest)
  {
    Step64(b, 0, 0);
    if b[0] >= 0x80 {
      ShlBy7(1);
      SmallMod(b[0] % 0x80, LIMIT32);
      AgreeFrom(b[1..], 1, b[0] % 0x80, b[0] % 0x80);
    }
  }

  /**
   The groups above the 35th bit of a value the 32-bit decoder lets pass: each all zeros or all ones, under
   the 64th bit.
   */
  predicate SignTail(v: nat, i: nat)
    requires 5 <= i <= 9
    decreases 9 - i
  {
    if i == 9 then v == 1 else (v % 0x80 == 0 || v % 0x80 == 0x7f) && SignTail(v / 0x80, i + 1)
  }

  /** Which 64-bit values the 32-bit decoder accepts in canonical form. */
  predicate Accepts32(v: u64)
  {
    v < LIMIT32 || (v / 0x8000_0000 % 2 == 1 && SignTail(v / 0x8_0000_0000, 5))
  }

  lemma {:induction false} TailFrom32(v: nat, i: nat, word: nat, rest: bytes)
    requires 5 <= i <= 9 && 0 < v && Shl(v, 7 * i) < LIMIT64 && word < LIMIT32
    ensures DecodeVarint32From(EncodeVarint(v) + rest, 7 * i, word) ==
      if word >= 0x8000_0000 && SignTail(v, i) then Some(Read(word, rest)) else None
    decreases v
  {
    EncodedHead(v, rest);
    HeadGroup(v);
    TenthGroup(v, i);
    Check32(EncodeVarint(v) + rest, i, word);
    if v <= 0x7f {
      if i < 9 { SmallTail(v, i); }
    } else {
      Regroup(v, i);
      TailFrom32(v / 0x80, i + 1, word, rest);
    }
  }

  lemma SmallTail(v: nat, i: nat)
    requires 5 <= i < 9 && v <= 0x7f
    ensures !SignTail(v, i)
  {
    assert !SignTail(0, 9) && !SignTail(0, 8) && !SignTail(0, 7) && !SignTail(0, 6);
  }

  function Decoded32(t: nat, rest: bytes): Option<Read<nat>>
    requires t < LIMIT64
  {
    if Accepts32(t) then Some(Read(t % LIMIT32, rest)) else None
  }

  lemma CanonicalStep32(v: nat, i: nat, word: nat, rest: bytes)
    requires i < 4 && word < Shl(1, 7 * i)
    ensures var word' := word + Shl(v % 0x80, 7 * i);
      && word' < Shl(1, 7 * (i + 1))
      && DecodeVarint32From(EncodeVarint(v) + rest, 7 * i, word) ==
           if v <= 0x7f then Some(Read(word', rest))
           else DecodeVarint32From(EncodeVarint(v / 0x80) + rest, 7 * (i + 1), word')
  {
    EncodedHead(v, rest);
    HeadGroup(v);
    Step32(EncodeVarint(v) + rest, i, word);
  }

  lemma {:induction false} DecodeFrom32(v: nat, i: nat, word: nat, t: nat, rest: bytes)
    requires 1 <= i <= 4 && 0 < v && word < Shl(1, 7 * i) && word + Shl(v, 7 * i) == t < LIMIT64
    ensures DecodeVarint32From(EncodeVarint(v) + rest, 7 * i, word) == Decoded32(t, rest)
    decreases v
  {
    if i == 4 {
      LastGroups32(v, i, word, t, rest);
      return;
    }
    CanonicalStep32(v, i, word, rest);
    Regroup(v, i);
    if v <= 0x7f {
      SmallMod(v, 0x80);
      SmallDecoded(t, i + 1, rest);
    } else {
      DecodeFrom32(v / 0x80, i + 1, word + Shl(v % 0x80, 7 * i), t, rest);
    }
  }

  lemma SmallDecoded(t: nat, i: nat, rest: bytes)
    requires i <= 4 && t < Shl(1, 7 * i)
    ensures t < LIMIT64 && Decoded32(t, rest) == Some(Read(t, rest))
  {
    LowGroups(t, i);
  }

  /** Where a value's fifth and later groups end up, given the first four in `word`. */
  lemma Split32(v: nat, word: nat, t: nat)
    requires word < 0x1000_0000 && word + Shl(v, 28) == t
    ensures var w := word + Shl(v % 16, 28);
      w < LIMIT32 && t % LIMIT32 == w && t / 0x8_0000_0000 == v / 0x80 && (t < LIMIT32 <==> v < 16) &&
      (t / 0x8000_0000 % 2 == 1 <==> w >= 0x8000_0000)
    ensures Shl(v / 0x80, 35) <= t
  {
    ShlBy28(v);
    ShlBy28(v % 16);
    ShlBy35(v / 0x80);
    FullWord(word, v);
  }

  lemma CanonicalFifth(v: nat, i: nat, word: nat, rest: bytes)
    requires i == 4 && word < Shl(1, 28)
    ensures DecodeVarint32From(EncodeVarint(v) + rest, 7 * i, word) ==
      if v > 0x7f then DecodeVarint32From(EncodeVarint(v / 0x80) + rest, 35, word + Shl(v % 16, 28))
      else if v >= 16 then None
      else Some(Read(word + Shl(v % 16, 28), rest))
  {
    EncodedHead(v, rest);
    HeadGroup(v);
    Step32(EncodeVarint(v) + rest, i, word);
  }

  lemma LastGroups32(v: nat, i: nat, word: nat, t: nat, rest: bytes)
    requires i == 4 && 0 < v && word < Shl(1, 28) && word + Shl(v, 28) == t < LIMIT64
    ensures DecodeVarint32From(EncodeVarint(v) + rest, 7 * i, word) == Decoded32(t, rest)
  {
    ShlBy28(1);
    Split32(v, word, t);
    CanonicalFifth(v, i, word, rest);
    if v > 0x7f {
      TailFrom32(v / 0x80, 5, word + Shl(v % 16, 28), rest);
    } else if v >= 16 {
      SmallTail(0, 5);
    }
  }

  lemma FullWord(word: nat, v: nat)
    requires word < 0x1000_0000
    ensures var t, w := word + 0x1000_0000 * v, word + 0x1000_0000 * (v % 16);
      t % LIMIT32 == w && t / 0x8_0000_0000 == v / 0x80 && (t < LIMIT32 <==> v < 16) &&
      (t / 0x8000_0000 % 2 == 1 <==> w >= 0x8000_0000)
  {
    var t, w := word + 0x1000_0000 * v, word + 0x1000_0000 * (v % 16);
    assert v == 16 * (v / 16) + v % 16;
    Vanishes(w, v / 16);
    SmallMod(w, LIMIT32);
    HalfWord(word, v);
  }

  lemma HalfWord(word: nat, v: nat)
    requires word < 0x1000_0000
    ensures (word + 0x1000_0000 * v) / 0x8000_0000 == v / 8 && (word + 0x1000_0000 * v) / 0x8_0000_0000 == v / 0x80
    ensures v / 8 % 2 == 1 <==> v % 16 >= 8
  {
  }

  /** Exactly what the 32-bit decoder makes of a canonical varint. */
  lemma Varint32OfCanonical(v: u64, rest: bytes)
    ensures DecodeVarint32(EncodeVarint(v) + rest) == if Accepts32(v) then Some(Read(v % LIMIT32, rest)) else None
  {
    EncodedHead(v, rest);
    HeadGroup(v);
    if v <= 0x7f {
      SmallMod(v, LIMIT32);
    } else {
      ShlBy7(1);
      ShlBy7(v / 0x80);
      DecodeFrom32(v / 0x80, 1, v % 0x80, v, rest);
    }
  }

  /** Every value below 2^32 and every sign-extended negative int32 is accepted ... */
  lemma Int32Accepted(v: u64)
    requires v < LIMIT32 || v >= LIMIT64 - 0x8000_0000
    ensures Accepts32(v)
  {
    if v >= LIMIT32 {
      var t := v / 0x8_0000_0000;
      assert t == 0x1fff_ffff;
      assert SignTail(1, 9) && SignTail(0xff, 8) && SignTail(0x7fff, 7) && SignTail(0x3f_ffff, 6);
    }
  }

  /** ... but not only those: the groups of a negative number need not repeat its sign consistently. */
  lemma MoreThanInt32Accepted()
    ensures var v := 0x8000_0000_8000_0000; Accepts32(v) && LIMIT32 <= v < LIMIT64 - 0x8000_0000
  {
    assert SignTail(1, 9) && SignTail(0x80, 8) && SignTail(0x4000, 7) && SignTail(0x20_0000, 6);
  }

  // ---------------------------------------------------------------------------------------
  // Zigzag.

  function ZigZag(n: int): nat
  {
    if n < 0 then -2 * n - 1 else 2 * n
  }

  function UnZigZag(v: nat): int
  {
    if v % 2 == 1 then -(v / 2) - 1 else v / 2
  }

  /** Zigzag pairs the signed with the unsigned 64-bit numbers, one to one. */
  lemma ZigZagInverse(n: int, v: nat)
    ensures UnZigZag(ZigZag(n)) == n && ZigZag(UnZigZag(v)) == v
    ensures -0x8000_0000_0000_0000 <= n < 0x8000_0000_0000_0000 <==> ZigZag(n) < LIMIT64
  {
  }

  lemma SvarintRoundTrip(n: int, rest: bytes)
    requires -0x8000_0000_0000_0000 <= n < 0x8000_0000_0000_0000
    ensures var r := DecodeVarint64(EncodeVarint(ZigZag(n)) + rest);
      r.Some? && UnZigZag(r.value.value) == n && r.value.rest == rest
  {
    ZigZagInverse(n, 0);
    Varint64RoundTrip(ZigZag(n), rest);
  }
}
