/**
 Framing of records for an AEAD: which bytes make the nonce, which of them travel with the record,
 and which make the additional data, for every kind of cipher a context can be created for. The
 AEAD itself is a pair of functions.
 */
module SslAead {
  import opened Wrappers
  import opened Bytes

  datatype Enc = Aes128Gcm | Aes256Gcm | ChaCha20Poly1305 | Aes128 | Aes256 | TripleDes | NullEnc

  datatype Mac = AeadMac | Sha1 | Sha256 | Sha384

  datatype Cipher = Cipher(enc: Enc, mac: Mac)

  const SSL3 := 0x0300
  const TLS1 := 0x0301
  const TLS1_3 := 0x0304

  /** `seal` and `open` take the nonce, the additional data and the text. */
  datatype Algorithm = Algorithm(nonceLen: nat, overhead: nat,
                                 seal: (bytes, bytes, bytes) -> bytes,
                                 open: (bytes, bytes, bytes) -> Option<bytes>)

  ghost predicate Correct(a: Algorithm)
  {
    forall nonce: bytes, ad: bytes, text: bytes :: |nonce| == a.nonceLen ==>
      a.open(nonce, ad, a.seal(nonce, ad, text)) == Some(text)
  }

  ghost predicate FixedOverhead(a: Algorithm)
  {
    forall nonce: bytes, ad: bytes, text: bytes :: |a.seal(nonce, ad, text)| == |text| + a.overhead
  }

  datatype Shape = Shape(macKeyLen: nat, fixedIvLen: nat, nonceLen: nat)

  /** Key sizes and nonce length of the AEAD for a cipher, if the cipher has one in that version. */
  function ShapeOf(cipher: Cipher, version: nat): Option<Shape>
  {
    match cipher.mac
    case AeadMac =>
      var iv := if version >= TLS1_3 then 12 else 4;
      (match cipher.enc
       case Aes128Gcm => Some(Shape(0, iv, 12))
       case Aes256Gcm => Some(Shape(0, iv, 12))
       case ChaCha20Poly1305 => Some(Shape(0, 12, 12))
       case _ => None)
    case Sha1 =>
      (match cipher.enc
       case NullEnc => Some(Shape(20, 0, 0))
       case TripleDes => Some(if version <= TLS1 then Shape(20, 8, 0) else Shape(20, 0, 8))
       case Aes128 => Some(if version <= TLS1 then Shape(20, 16, 0) else Shape(20, 0, 16))
       case Aes256 => Some(if version <= TLS1 then Shape(20, 16, 0) else Shape(20, 0, 16))
       case _ => None)
    case Sha256 => if cipher.enc == Aes128 || cipher.enc == Aes256 then Some(Shape(32, 0, 16)) else None
    case Sha384 => if cipher.enc == Aes256 then Some(Shape(48, 0, 16)) else None
  }

  /** Nonces have twelve bytes in the AEAD modes, a block with an explicit IV, and none with an implicit one. */
  lemma NonceLengths(cipher: Cipher, version: nat)
    requires ShapeOf(cipher, version).Some?
    ensures var n := ShapeOf(cipher, version).value.nonceLen;
      if cipher.mac == AeadMac then n == 12
      else if cipher.enc == NullEnc || (cipher.mac == Sha1 && version <= TLS1) then n == 0
      else n == if cipher.enc == TripleDes then 8 else 16
  {
  }

  // ---------------------------------------------------------------------------------------
  // Exclusive or.

  function BitXor(a: nat, b: nat): nat
    decreases a + b
  {
    if a == 0 && b == 0 then 0 else (if a % 2 != b % 2 then 1 else 0) + 2 * BitXor(a / 2, b / 2)
  }

  lemma {:induction false} XorSmall(a: nat, b: nat, limit: nat, bits: nat)
    requires a < limit && b < limit && limit == Power(bits)
    ensures BitXor(a, b) < limit
    decreases bits
  {
    if bits > 0 {
      XorSmall(a / 2, b / 2, limit / 2, bits - 1);
    }
  }

  function Power(bits: nat): nat
  {
    if bits == 0 then 1 else 2 * Power(bits - 1)
  }

  lemma {:induction false} XorWithZero(a: nat)
    ensures BitXor(0, a) == a
  {
    if a > 0 {
      XorWithZero(a / 2);
    }
  }

  /** What is xored twice is as it was. */
  lemma {:induction false} XorTwice(a: nat, k: nat)
    ensures BitXor(BitXor(a, k), k) == a
    decreases a + k
  {
    if a != 0 || k != 0 {
      XorTwice(a / 2, k / 2);
    }
  }

  function BitOf(n: nat, i: nat): nat
  {
    if i == 0 then n % 2 else BitOf(n / 2, i - 1)
  }

  /** A bit of the result is set exactly if one of the two bits is. */
  lemma {:induction false} XorBit(a: nat, b: nat, i: nat)
    ensures BitOf(BitXor(a, b), i) == if BitOf(a, i) != BitOf(b, i) then 1 else 0
    decreases i
  {
    var x := BitXor(a, b);
    if a == 0 && b == 0 {
      ZeroBits(i);
    } else {
      assert x % 2 == (if a % 2 != b % 2 then 1 else 0) && x / 2 == BitXor(a / 2, b / 2);
      if i > 0 {
        XorBit(a / 2, b / 2, i - 1);
      }
    }
  }

  lemma {:induction false} ZeroBits(i: nat)
    ensures BitOf(0, i) == 0
  {
    if i > 0 {
      ZeroBits(i - 1);
    }
  }

  function Xor8(a: u8, b: u8): u8
  {
    assert Power(8) == 0x100 by { assert Power(4) == 16; }
    XorSmall(a, b, 0x100, 8);
    BitXor(a, b)
  }

  function XorAll(a: bytes, k: bytes): (r: bytes)
    requires |a| == |k|
    ensures |r| == |a|
  {
    seq(|a|, i requires 0 <= i < |a| => Xor8(a[i], k[i]))
  }

  lemma XorAllTwice(a: bytes, k: bytes)
    requires |a| == |k|
    ensures XorAll(XorAll(a, k), k) == a
  {
    forall i | 0 <= i < |a| ensures XorAll(XorAll(a, k), k)[i] == a[i] {
      XorTwice(a[i], k[i]);
    }
  }

  // ---------------------------------------------------------------------------------------

  class AeadContext {
    const algorithm: Algorithm
    /** The initial, null cipher passes records through. */
    const isNull: bool
    var fixedNonce: bytes
    var variableNonceLen: nat
    var variableNonceIncluded: bool
    var randomVariableNonce: bool
    var omitLengthInAd: bool
    var omitVersionInAd: bool
    var omitAd: bool
    var xorFixedNonce: bool

    /** What every context that can be created keeps to. */
    ghost predicate Valid()
      reads this
    {
      !isNull ==>
        && (if xorFixedNonce then variableNonceLen <= |fixedNonce| == algorithm.nonceLen
            else |fixedNonce| + variableNonceLen == algorithm.nonceLen)
        && (xorFixedNonce ==> !variableNonceIncluded)
        && (randomVariableNonce ==> variableNonceIncluded && omitLengthInAd)
        && (!randomVariableNonce ==> variableNonceLen == 8)
    }

    constructor NullCipher(algorithm: Algorithm)
      ensures Valid() && isNull
    {
      this.algorithm, isNull := algorithm, true;
      fixedNonce, variableNonceLen := [], 0;
      variableNonceIncluded, randomVariableNonce, omitLengthInAd, omitVersionInAd := false, false, false, false;
      omitAd, xorFixedNonce := false, false;
    }

    constructor ForCipher(cipher: Cipher, version: nat, macKeyLen: nat, fixedIv: bytes, algorithm: Algorithm)
      requires ShapeOf(cipher, version) == Some(Shape(macKeyLen, |fixedIv|, algorithm.nonceLen))
      requires macKeyLen != 0 ==> version < TLS1_3
      ensures Valid() && !isNull && this.algorithm == algorithm
      ensures randomVariableNonce <==> macKeyLen != 0
      ensures omitAd <==> macKeyLen == 0 && version >= TLS1_3
      ensures variableNonceIncluded <==> macKeyLen != 0 || (cipher.enc != ChaCha20Poly1305 && version < TLS1_3)
      ensures omitVersionInAd <==> macKeyLen != 0 && version == SSL3
      ensures omitLengthInAd <==> macKeyLen != 0
      ensures xorFixedNonce <==> macKeyLen == 0 && (cipher.enc == ChaCha20Poly1305 || version >= TLS1_3)
      ensures fixedNonce == if macKeyLen == 0 then fixedIv else []
    {
      this.algorithm, isNull := algorithm, false;
      fixedNonce, variableNonceLen := [], algorithm.nonceLen;
      variableNonceIncluded, randomVariableNonce, omitLengthInAd, omitVersionInAd := false, false, false, false;
      omitAd, xorFixedNonce := false, false;
      if macKeyLen == 0 {
        fixedNonce := fixedIv;
        if cipher.enc == ChaCha20Poly1305 {
          xorFixedNonce := true;
          variableNonceLen := 8;
        } else {
          variableNonceLen := algorithm.nonceLen - |fixedIv|;
        }
        if cipher.enc == Aes128Gcm || cipher.enc == Aes256Gcm {
          variableNonceIncluded := true;
        }
        if version >= TLS1_3 {
          xorFixedNonce := true;
          variableNonceLen := 8;
          variableNonceIncluded := false;
          omitAd := true;
        }
      } else {
        variableNonceIncluded := true;
        randomVariableNonce := true;
        omitLengthInAd := true;
        omitVersionInAd := version == SSL3;
      }
    }

    function ExplicitNonceLen(): nat
      reads this
    {
      if variableNonceIncluded then variableNonceLen else 0
    }

    function MaxOverhead(): nat
      reads this
    {
      ExplicitNonceLen() + if isNull then 0 else algorithm.overhead
    }

    /** The nonce around its variable part: after the fixed one, or padded and xored with it. */
    function NonceFor(variable: bytes): (r: bytes)
      requires Valid() && !isNull && |variable| == variableNonceLen
      reads this
      ensures |r| == algorithm.nonceLen
    {
      if xorFixedNonce then XorAll(Zeros(|fixedNonce| - variableNonceLen) + variable, fixedNonce)
      else fixedNonce + variable
    }

    /** Octet by octet: the fixed nonce with the variable part behind it, or the two aligned at their ends and xored. */
    lemma NonceOctets(variable: bytes, i: nat)
      requires Valid() && !isNull && |variable| == variableNonceLen && i < algorithm.nonceLen
      ensures !xorFixedNonce ==>
        NonceFor(variable)[i] == if i < |fixedNonce| then fixedNonce[i] else variable[i - |fixedNonce|]
      ensures xorFixedNonce ==>
        NonceFor(variable)[i] ==
          var pad := algorithm.nonceLen - variableNonceLen;
          if i < pad then fixedNonce[i] else Xor8(variable[i - pad], fixedNonce[i])
    {
      if xorFixedNonce && i < algorithm.nonceLen - variableNonceLen {
        XorWithZero(fixedNonce[i]);
      }
    }

    function AdditionalData(kind: u8, version: u16, sequence: bytes, plaintextLen: nat): (r: bytes)
      requires |sequence| == 8
      reads this
      ensures |r| <= 13
    {
      if omitAd then [] else
      sequence + [kind]
      + (if omitVersionInAd then [] else [version / 0x100, version % 0x100])
      + (if omitLengthInAd then [] else [plaintextLen / 0x100 % 0x100, plaintextLen % 0x100])
    }

    /** Octet by octet: sequence number, type, version and length of the plaintext, without what the mode omits. */
    lemma AdditionalDataOctets(kind: u8, version: u16, sequence: bytes, plaintextLen: u16)
      requires |sequence| == 8
      ensures var ad := AdditionalData(kind, version, sequence, plaintextLen);
        && (omitAd <==> ad == [])
        && (!omitAd ==>
              && |ad| == 9 + (if omitVersionInAd then 0 else 2) + (if omitLengthInAd then 0 else 2)
              && ad[..8] == sequence && ad[8] == kind
              && (!omitVersionInAd ==> 0x100 * ad[9] as int + ad[10] == version)
              && (!omitLengthInAd ==> 0x100 * ad[|ad| - 2] as int + ad[|ad| - 1] == plaintextLen))
    {
      var ad := AdditionalData(kind, version, sequence, plaintextLen);
      if !omitAd {
        assert ad[..8] == sequence && ad[8] == kind;
        assert !omitVersionInAd ==> ad[9] == version / 0x100 && ad[10] == version % 0x100;
        assert !omitLengthInAd ==> ad[|ad| - 2] == plaintextLen / 0x100 && ad[|ad| - 1] == plaintextLen % 0x100;
      }
    }

    /** Assembled in a buffer of thirteen bytes. */
    method GetAdditionalData(out: array<u8>, kind: u8, version: u16, sequence: bytes, plaintextLen: nat)
      returns (len: nat)
      requires out.Length == 13 && |sequence| == 8
      modifies out
      ensures len <= 13 && out[..len] == AdditionalData(kind, version, sequence, plaintextLen)
    {
      if omitAd {
        return 0;
      }
      forall i | 0 <= i < 8 {
        out[i] := sequence[i];
      }
      len := 8;
      out[len] := kind;
      len := len + 1;
      assert out[..len] == sequence + [kind];
      if !omitVersionInAd {
        out[len], out[len + 1] := version / 0x100, version % 0x100;
        len := len + 2;
        assert out[..len] == sequence + [kind] + [version / 0x100, version % 0x100];
      }
      if !omitLengthInAd {
        ghost var before := out[..len];
        out[len], out[len + 1] := plaintextLen / 0x100 % 0x100, plaintextLen % 0x100;
        len := len + 2;
        assert out[..len] == before + [plaintextLen / 0x100 % 0x100, plaintextLen % 0x100];
      }
    }

    /** The nonce is put together in a buffer and xored in place. */
    method AssembleNonce(variable: bytes) returns (nonce: bytes)
      requires Valid() && !isNull && |variable| == variableNonceLen
      ensures nonce == NonceFor(variable)
    {
      var prefix := if xorFixedNonce then Zeros(|fixedNonce| - variableNonceLen) else fixedNonce;
      var start := prefix + variable;
      if !xorFixedNonce {
        return start;
      }
      var buf := new u8[|start|](i requires 0 <= i < |start| => start[i]);
      assert buf[..] == start;
      for i := 0 to |fixedNonce|
        invariant forall j :: 0 <= j < i ==> buf[j] == Xor8(start[j], fixedNonce[j])
        invariant forall j :: i <= j < buf.Length ==> buf[j] == start[j]
      {
        buf[i] := Xor8(buf[i], fixedNonce[i]);
      }
      assert buf[..] == XorAll(start, fixedNonce);
      return buf[..];
    }

    /** `record` is what sealing makes of `text`, with `variable` as the nonce's variable part. */
    ghost predicate Sealed(kind: u8, version: u16, sequence: bytes, text: bytes, variable: bytes, record: bytes)
      requires Valid() && |sequence| == 8
      reads this
    {
      if isNull then record == text else
      && |variable| == variableNonceLen && (!randomVariableNonce ==> variable == sequence)
      && record == (if variableNonceIncluded then variable else [])
                   + algorithm.seal(NonceFor(variable), AdditionalData(kind, version, sequence, |text|), text)
    }

    /**
     A record of at most `maxOut` bytes, or none: where it would be longer, and where the AEAD or the
     source of randomness fails (unless it `works`), which only the null cipher cannot.
     */
    method Seal(kind: u8, version: u16, sequence: bytes, text: bytes, random: bytes, maxOut: nat, works: bool)
      returns (record: Option<bytes>)
      requires Valid() && |sequence| == 8 && |random| == variableNonceLen
      ensures record.Some? ==>
        |record.value| <= maxOut
          && Sealed(kind, version, sequence, text, if randomVariableNonce then random else sequence, record.value)
      ensures isNull ==> (record.Some? <==> |text| <= maxOut)
      ensures !isNull ==>
        var variable := if randomVariableNonce then random else sequence;
        var sealed := algorithm.seal(NonceFor(variable), AdditionalData(kind, version, sequence, |text|), text);
        record.Some? <==> works && (if variableNonceIncluded then variableNonceLen else 0) + |sealed| <= maxOut
    {
      if isNull {
        return if |text| <= maxOut then Some(text) else None;
      }
      var ad := new u8[13];
      var adLen := GetAdditionalData(ad, kind, version, sequence, |text|);
      var variable := if randomVariableNonce then random else sequence;
      var nonce := AssembleNonce(variable);
      var sealed := algorithm.seal(nonce, ad[..adLen], text);
      // In the modes with an explicit nonce its variable part travels in front.
      var prefix := if variableNonceIncluded then variable else [];
      if !works || |prefix| + |sealed| > maxOut {
        return None;
      }
      return Some(prefix + sealed);
    }

    function OpenResult(kind: u8, version: u16, sequence: bytes, record: bytes): Option<bytes>
      requires Valid() && |sequence| == 8
      reads this
    {
      if isNull then Some(record)
      else if !omitLengthInAd && |record| < MaxOverhead() then None
      else if variableNonceIncluded && |record| < variableNonceLen then None
      else
        var ad := AdditionalData(kind, version, sequence, if omitLengthInAd then 0 else |record| - MaxOverhead());
        if variableNonceIncluded
          then algorithm.open(NonceFor(record[..variableNonceLen]), ad, record[variableNonceLen..])
        else algorithm.open(NonceFor(sequence), ad, record)
    }

    method Open(kind: u8, version: u16, sequence: bytes, record: bytes) returns (text: Option<bytes>)
      requires Valid() && |sequence| == 8
      ensures text == OpenResult(kind, version, sequence, record)
      ensures isNull ==> text == Some(record)
      ensures !isNull && variableNonceIncluded && |record| < variableNonceLen ==> text.None?
    {
      if isNull {
        return Some(record);
      }
      var plaintextLen := 0;
      if !omitLengthInAd {
        var overhead := MaxOverhead();
        if |record| < overhead {
          return None;
        }
        plaintextLen := |record| - overhead;
      }
      var ad := new u8[13];
      var adLen := GetAdditionalData(ad, kind, version, sequence, plaintextLen);
      var variable, rest := sequence, record;
      if variableNonceIncluded {
        if |record| < variableNonceLen {
          return None;
        }
        variable, rest := record[..variableNonceLen], record[variableNonceLen..];
      }
      var nonce := AssembleNonce(variable);
      return algorithm.open(nonce, ad[..adLen], rest);
    }

    /** Whatever was sealed opens, under the same type, version and sequence number, to what it was. */
    lemma OpenInvertsSeal(kind: u8, version: u16, sequence: bytes, text: bytes, variable: bytes, record: bytes)
      requires Valid() && |sequence| == 8 && Sealed(kind, version, sequence, text, variable, record)
      requires Correct(algorithm) && (!omitLengthInAd && !omitAd ==> FixedOverhead(algorithm))
      requires !omitLengthInAd && omitAd ==> |record| >= MaxOverhead()
      ensures OpenResult(kind, version, sequence, record) == Some(text)
    {
      if !isNull {
        var nonce := NonceFor(variable);
        var ad := AdditionalData(kind, version, sequence, |text|);
        var body := algorithm.seal(nonce, ad, text);
        if variableNonceIncluded {
          assert record[..variableNonceLen] == variable && record[variableNonceLen..] == body;
        } else {
          assert record == body;
        }
        assert algorithm.open(nonce, ad, body) == Some(text);
      }
    }

    /** Where the nonce is not random, no two sequence numbers share one. */
    lemma DistinctNonces(a: bytes, b: bytes)
      requires Valid() && !isNull && !randomVariableNonce && |a| == |b| == 8 && a != b
      ensures NonceFor(a) != NonceFor(b)
    {
      if xorFixedNonce {
        var pad := Zeros(|fixedNonce| - variableNonceLen);
        XorAllTwice(pad + a, fixedNonce);
        XorAllTwice(pad + b, fixedNonce);
        assert (pad + a)[|pad|..] == a && (pad + b)[|pad|..] == b;
      } else {
        assert (fixedNonce + a)[|fixedNonce|..] == a && (fixedNonce + b)[|fixedNonce|..] == b;
      }
    }

    /** Unless it is left out, the additional data pins down the sequence number, the type and the version. */
    lemma AdditionalDataBinds(k1: u8, v1: u16, s1: bytes, n1: nat, k2: u8, v2: u16, s2: bytes, n2: nat)
      requires |s1| == |s2| == 8 && !omitAd
      requires AdditionalData(k1, v1, s1, n1) == AdditionalData(k2, v2, s2, n2)
      ensures s1 == s2 && k1 == k2 && (!omitVersionInAd ==> v1 == v2)
      ensures !omitLengthInAd && n1 < 0x1_0000 && n2 < 0x1_0000 ==> n1 == n2
    {
      var a, b := AdditionalData(k1, v1, s1, n1), AdditionalData(k2, v2, s2, n2);
      assert a[..8] == s1 && b[..8] == s2 && a[8] == k1 && b[8] == k2;
      if !omitVersionInAd {
        assert a[9] == v1 / 0x100 && a[10] == v1 % 0x100 && b[9] == v2 / 0x100 && b[10] == v2 % 0x100;
      }
      if !omitLengthInAd {
        var p := |a| - 2;
        assert a[p] == n1 / 0x100 % 0x100 && a[p + 1] == n1 % 0x100;
        assert b[p] == n2 / 0x100 % 0x100 && b[p + 1] == n2 % 0x100;
      }
    }
  }

  /** A context for a cipher, or none where the key sizes are not what the cipher calls for. */
  method Create(cipher: Cipher, version: nat, macKeyLen: nat, fixedIv: bytes, algorithm: Algorithm)
    returns (context: AeadContext?)
    requires ShapeOf(cipher, version).Some? ==> algorithm.nonceLen == ShapeOf(cipher, version).value.nonceLen
    requires cipher.mac != AeadMac ==> version < TLS1_3
    ensures context != null <==>
      ShapeOf(cipher, version).Some? && ShapeOf(cipher, version).value.macKeyLen == macKeyLen
      && ShapeOf(cipher, version).value.fixedIvLen == |fixedIv|
    ensures cipher.mac == AeadMac && (cipher.enc == Aes128Gcm || cipher.enc == Aes256Gcm) ==>
      (context != null <==> macKeyLen == 0 && |fixedIv| == if version >= TLS1_3 then 12 else 4)
    ensures cipher.mac == AeadMac && cipher.enc == ChaCha20Poly1305 ==>
      (context != null <==> macKeyLen == 0 && |fixedIv| == 12)
    ensures cipher.mac == Sha1 && (cipher.enc == Aes128 || cipher.enc == Aes256) ==>
      (context != null <==> macKeyLen == 20 && |fixedIv| == if version <= TLS1 then 16 else 0)
    ensures cipher.mac == Sha1 && cipher.enc == TripleDes ==>
      (context != null <==> macKeyLen == 20 && |fixedIv| == if version <= TLS1 then 8 else 0)
    ensures context != null ==> fresh(context) && context.Valid() && !context.isNull && context.algorithm == algorithm
    ensures context != null ==>
      && context.fixedNonce == (if macKeyLen == 0 then fixedIv else [])
      && (context.randomVariableNonce <==> macKeyLen != 0)
      && (context.variableNonceIncluded <==>
            macKeyLen != 0 || (cipher.enc != ChaCha20Poly1305 && version < TLS1_3))
      && (context.xorFixedNonce <==> macKeyLen == 0 && (cipher.enc == ChaCha20Poly1305 || version >= TLS1_3))
      && (context.omitAd <==> macKeyLen == 0 && version >= TLS1_3)
      && (context.omitLengthInAd <==> macKeyLen != 0)
      && (context.omitVersionInAd <==> macKeyLen != 0 && version == SSL3)
  {
    var shape := ShapeOf(cipher, version);
    if shape.None? || shape.value.fixedIvLen != |fixedIv| || shape.value.macKeyLen != macKeyLen {
      return null;
    }
    context := new AeadContext.ForCipher(cipher, version, macKeyLen, fixedIv, algorithm);
  }
}
