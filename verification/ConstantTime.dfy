/**
 Branch-free words, and the removal of PKCS #1 padding that is built from them: which premaster
 secret comes out must not show in the time it takes, but must be the right one.
 */
module ConstantTime {
  import opened Wrappers

  const TRUE_W: bv64 := 0xffff_ffff_ffff_ffff
  const TRUE_8: bv8 := 0xff

  /** The top bit in every place. */
  function Msb(a: bv64): bv64
  {
    0 - (a >> 63)
  }

  function IsZero(a: bv64): bv64
  {
    Msb(!a & (a - 1))
  }

  function Eq(a: bv64, b: bv64): bv64
  {
    IsZero(a ^ b)
  }

  function Select(mask: bv64, a: bv64, b: bv64): bv64
  {
    (mask & a) | (!mask & b)
  }

  /** The low byte of a word. */
  function Low(a: bv64): bv8
  {
    (a & 0xff) as bv8
  }

  function IsZero8(a: bv8): bv8
  {
    Low(IsZero(a as bv64))
  }

  function Eq8(a: bv8, b: bv8): bv8
  {
    Low(Eq(a as bv64, b as bv64))
  }

  function Select8(mask: bv8, a: bv8, b: bv8): bv8
  {
    Low(Select(mask as bv64, a as bv64, b as bv64))
  }

  function Mask(b: bool): bv64
  {
    if b then TRUE_W else 0
  }

  function Mask8(b: bool): bv8
  {
    if b then TRUE_8 else 0
  }

  const TOP: bv64 := 0x8000_0000_0000_0000

  lemma MsbSpreads(a: bv64)
    ensures Msb(a) == if a >= TOP then TRUE_W else 0
  {
  }

  lemma ZeroBit(a: bv64)
    ensures (!a & (a - 1)) >= TOP <==> a == 0
  {
  }

  lemma IsZeroWord(a: bv64)
    ensures IsZero(a) == Mask(a == 0)
  {
    ZeroBit(a);
    MsbSpreads(!a & (a - 1));
  }

  lemma Differ(a: bv64, b: bv64)
    ensures a ^ b == 0 <==> a == b
  {
  }

  lemma IsEqual(a: bv64, b: bv64)
    ensures Eq(a, b) == Mask(a == b)
  {
    Differ(a, b);
    IsZeroWord(a ^ b);
  }

  lemma SelectsFirst(a: bv64, b: bv64)
    ensures Select(TRUE_W, a, b) == a
  {
  }

  lemma SelectsSecond(a: bv64, b: bv64)
    ensures Select(0, a, b) == b
  {
  }

  lemma Selects(condition: bool, a: bv64, b: bv64)
    ensures Select(Mask(condition), a, b) == if condition then a else b
  {
    if condition { SelectsFirst(a, b); } else { SelectsSecond(a, b); }
  }

  lemma IsZeroByte(a: bv8)
    ensures IsZero8(a) == Mask8(a == 0)
  {
    IsZeroWord(a as bv64);
  }

  lemma IsEqualByte(a: bv8, b: bv8)
    ensures Eq8(a, b) == Mask8(a == b)
  {
    IsEqual(a as bv64, b as bv64);
  }

  lemma SelectsByte(condition: bool, a: bv8, b: bv8)
    ensures Select8(Mask8(condition), a, b) == if condition then a else b
  {
  }

  lemma BothMasks(a: bool, b: bool)
    ensures Mask8(a) & Mask8(b) == Mask8(a && b) && Mask8(a) & !Mask8(b) == Mask8(a && !b)
  {
  }

  // ---------------------------------------------------------------------------------------

  const PREMASTER_LEN := 48

  /** RFC 3447, section 7.2.2: zero, two, at least eight nonzero bytes, zero, the message. */
  predicate Padded(block: seq<bv8>, padding: nat)
    requires 11 <= padding <= |block|
  {
    && block[0] == 0 && block[1] == 2
    && (forall i :: 2 <= i < padding - 1 ==> block[i] != 0)
    && block[padding - 1] == 0
  }

  /** RFC 5246, section 7.4.7.1: the secret starts with the version that the client offered. */
  predicate Versioned(block: seq<bv8>, padding: nat, major: bv8, minor: bv8)
    requires padding + 1 < |block|
  {
    block[padding] == major && block[padding + 1] == minor
  }

  /**
   The secret in the decrypted block if its padding and version are right, and else the random one;
   none if the block is too small to hold a secret, which anyone can see.
   */
  method SelectPremaster(block: array<bv8>, random: seq<bv8>, major: bv8, minor: bv8) returns (secret: Option<seq<bv8>>)
    requires |random| == PREMASTER_LEN
    ensures secret.None? <==> block.Length < 11 + PREMASTER_LEN
    ensures secret.Some? ==>
      var padding := block.Length - PREMASTER_LEN;
      secret.value == if Padded(block[..], padding) && Versioned(block[..], padding, major, minor)
                      then block[padding..] else random
  {
    if block.Length < 11 + PREMASTER_LEN {
      return None;
    }
    var padding := block.Length - PREMASTER_LEN;
    var good := Eq8(block[0], 0) & Eq8(block[1], 2);
    IsEqualByte(block[0], 0);
    IsEqualByte(block[1], 2);
    BothMasks(block[0] == 0, block[1] == 2);
    var i := 2;
    while i < padding - 1
      invariant 2 <= i <= padding - 1
      invariant good == Mask8(block[0] == 0 && block[1] == 2 && forall j :: 2 <= j < i ==> block[j] != 0)
    {
      IsZeroByte(block[i]);
      BothMasks(block[0] == 0 && block[1] == 2 && forall j :: 2 <= j < i ==> block[j] != 0, block[i] == 0);
      good := good & !IsZero8(block[i]);
      i := i + 1;
    }
    IsZeroByte(block[padding - 1]);
    BothMasks(block[0] == 0 && block[1] == 2 && forall j :: 2 <= j < padding - 1 ==> block[j] != 0,
              block[padding - 1] == 0);
    good := good & IsZero8(block[padding - 1]);
    assert good == Mask8(Padded(block[..], padding));
    IsEqualByte(block[padding], major);
    IsEqualByte(block[padding + 1], minor);
    BothMasks(Padded(block[..], padding), block[padding] == major);
    BothMasks(Padded(block[..], padding) && block[padding] == major, block[padding + 1] == minor);
    good := good & Eq8(block[padding], major);
    good := good & Eq8(block[padding + 1], minor);
    ghost var right := Padded(block[..], padding) && Versioned(block[..], padding, major, minor);
    var chosen: seq<bv8> := [];
    for k := 0 to PREMASTER_LEN
      invariant |chosen| == k
      invariant forall j :: 0 <= j < k ==> chosen[j] == if right then block[padding + j] else random[j]
    {
      SelectsByte(right, block[padding + k], random[k]);
      chosen := chosen + [Select8(good, block[padding + k], random[k])];
    }
    return Some(chosen);
  }
}
