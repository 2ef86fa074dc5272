/**
 The SCALE compact (general) integer encoding, as defined in the SCALE Codec
 appendix of the Polkadot Protocol Specification ("Compact/General Integers").
 The two low bits of the first byte select the mode:

   0b00  single-byte mode, n < 2^6:          one byte, n << 2
   0b01  two-byte mode,    2^6 <= n < 2^14:  n << 2 | 1, two bytes little-endian
   0b10  four-byte mode,   2^14 <= n < 2^30: n << 2 | 2, four bytes little-endian
   0b11  big-integer mode, 2^30 <= n:        ((m - 4) << 2) | 3, then n in m bytes
                                              little-endian, m = least byte count

 The decoder accepts only the canonical (shortest) form, rejecting a value that
 a shorter mode could have carried and a big-integer form with a zero top byte.
 */
module Compact {
  import opened Wrappers
  import opened Bytes

  /** The most bytes the big-integer mode can announce: 63 + 4. */
  const MAX_BYTES: nat := 67

  const SINGLE_BYTE_LIMIT: nat := 0x40
  const TWO_BYTE_LIMIT: nat := 0x4000
  const FOUR_BYTE_LIMIT: nat := 0x4000_0000

  /** Values the encoding can carry: those that fit in 67 bytes. */
  predicate Encodable(n: nat) {
    ByteLength(n) <= MAX_BYTES
  }

  /** Bytes of a value announced by a big-integer first byte. */
  function BigModeLength(first: u8): (m: nat) {
    first as nat / 4 + 4
  }

  /** The mode a value's magnitude selects: 0, 1, 2 or 3. */
  function ModeOf(n: nat): (mode: nat) {
    if n < SINGLE_BYTE_LIMIT then 0
    else if n < TWO_BYTE_LIMIT then 1
    else if n < FOUR_BYTE_LIMIT then 2
    else 3
  }

  function Encode(n: nat): (r: seq<u8>)
    requires Encodable(n)
    ensures |r| == (if n < SINGLE_BYTE_LIMIT then 1
                    else if n < TWO_BYTE_LIMIT then 2
                    else if n < FOUR_BYTE_LIMIT then 4
                    else 1 + ByteLength(n))
  {
    if n < SINGLE_BYTE_LIMIT then
      [(n * 4) as u8]
    else if n < TWO_BYTE_LIMIT then
      LittleEndian(n * 4 + 1, 2)
    else if n < FOUR_BYTE_LIMIT then
      LemmaPow256Four();
      LittleEndian(n * 4 + 2, 4)
    else
      var m := ByteLength(n);
      LemmaBigModeLength(n);
      [((m - 4) * 4 + 3) as u8] + LittleEndian(n, m)
  }

  /** The low two bits of the first byte name the mode the value's magnitude selects. */
  lemma LemmaEncodeMode(n: nat)
    requires Encodable(n)
    ensures Encode(n)[0] as nat % 4 == ModeOf(n)
  {
    if n < SINGLE_BYTE_LIMIT {
    } else if n < TWO_BYTE_LIMIT {
      LemmaEncodeModeTwoByte(n);
    } else if n < FOUR_BYTE_LIMIT {
      LemmaEncodeModeFourByte(n);
    } else {
      LemmaEncodeModeBig(n);
    }
  }

  lemma LemmaEncodeModeTwoByte(n: nat)
    requires SINGLE_BYTE_LIMIT <= n < TWO_BYTE_LIMIT
    ensures Encodable(n) && Encode(n)[0] as nat % 4 == 1
  {
    LemmaByteLengthBelow(n, 2);
    var v := n * 4 + 1;
    assert v % 4 == 1;
    LemmaLittleEndianLowBits(v, 2);
  }

  lemma LemmaEncodeModeFourByte(n: nat)
    requires TWO_BYTE_LIMIT <= n < FOUR_BYTE_LIMIT
    ensures Encodable(n) && Encode(n)[0] as nat % 4 == 2
  {
    LemmaPow256Four();
    LemmaByteLengthBelow(n, 4);
    var v := n * 4 + 2;
    assert v % 4 == 2;
    LemmaLittleEndianLowBits(v, 4);
  }

  lemma LemmaEncodeModeBig(n: nat)
    requires Encodable(n) && FOUR_BYTE_LIMIT <= n
    ensures Encode(n)[0] as nat % 4 == 3
  {
    var m := ByteLength(n);
    LemmaBigModeLength(n);
    assert Encode(n)[0] as nat == (m - 4) * 4 + 3;
  }

  lemma LemmaLittleEndianLowBits(v: nat, k: nat)
    requires 0 < k && v < Pow256(k)
    ensures LittleEndian(v, k)[0] as nat % 4 == v % 4
  {
    LemmaLittleEndianFirstByte(v, k);
    LemmaLowBitsOfLowByte(v);
  }

  /** A value of the big-integer mode needs between 4 and 67 bytes. */
  lemma LemmaBigModeLength(n: nat)
    requires Encodable(n) && FOUR_BYTE_LIMIT <= n
    ensures 4 <= ByteLength(n) <= MAX_BYTES
  {
    var m := ByteLength(n);
    if m < 4 {
      LemmaPow256Monotone(m, 3);
    }
  }

  /** Decodes one compact integer from the front of `s`, returning it and the bytes after it. */
  function Decode(s: seq<u8>): (r: Option<(nat, seq<u8>)>)
    ensures r.Some? ==> |r.value.1| < |s| && r.value.1 == s[|s| - |r.value.1|..]
  {
    if |s| == 0 then None
    else if s[0] as nat % 4 == 0 then
      Some((s[0] as nat / 4, s[1..]))
    else if s[0] as nat % 4 == 1 then
      if |s| < 2 then None
      else
        var n := FromLittleEndian(s[..2]) / 4;
        if n < SINGLE_BYTE_LIMIT then None else Some((n, s[2..]))
    else if s[0] as nat % 4 == 2 then
      if |s| < 4 then None
      else
        var n := FromLittleEndian(s[..4]) / 4;
        if n < TWO_BYTE_LIMIT then None else Some((n, s[4..]))
    else
      var m := BigModeLength(s[0]);
      if |s| < 1 + m then None
      else
        var n := FromLittleEndian(s[1..1 + m]);
        if n < FOUR_BYTE_LIMIT || s[m] == 0 then None else Some((n, s[1 + m..]))
  }

  /** Decoding an encoding returns the value and leaves the following bytes untouched. */
  lemma LemmaDecodeEncode(n: nat, rest: seq<u8>)
    requires Encodable(n)
    ensures Decode(Encode(n) + rest) == Some((n, rest))
  {
    LemmaEncodeMode(n);
    if n < SINGLE_BYTE_LIMIT {
      assert (Encode(n) + rest)[1..] == rest;
    } else if n < TWO_BYTE_LIMIT {
      LemmaDecodeEncodeTwoByte(n, rest);
    } else if n < FOUR_BYTE_LIMIT {
      LemmaDecodeEncodeFourByte(n, rest);
    } else {
      LemmaDecodeEncodeBig(n, rest);
    }
  }

  lemma LemmaDecodeEncodeTwoByte(n: nat, rest: seq<u8>)
    requires SINGLE_BYTE_LIMIT <= n < TWO_BYTE_LIMIT
    requires Encodable(n) && Encode(n)[0] as nat % 4 == 1
    ensures Decode(Encode(n) + rest) == Some((n, rest))
  {
    var e := Encode(n);
    var s := e + rest;
    assert s[..2] == e && s[2..] == rest;
    LemmaFromLittleEndianOfLittleEndian(n * 4 + 1, 2);
  }

  lemma LemmaDecodeEncodeFourByte(n: nat, rest: seq<u8>)
    requires TWO_BYTE_LIMIT <= n < FOUR_BYTE_LIMIT
    requires Encodable(n) && Encode(n)[0] as nat % 4 == 2
    ensures Decode(Encode(n) + rest) == Some((n, rest))
  {
    var e := Encode(n);
    var s := e + rest;
    LemmaPow256Four();
    assert s[..4] == e && s[4..] == rest;
    LemmaFromLittleEndianOfLittleEndian(n * 4 + 2, 4);
  }

  lemma LemmaDecodeEncodeBig(n: nat, rest: seq<u8>)
    requires FOUR_BYTE_LIMIT <= n
    requires Encodable(n) && Encode(n)[0] as nat % 4 == 3
    ensures Decode(Encode(n) + rest) == Some((n, rest))
  {
    var e := Encode(n);
    var s := e + rest;
    var m := ByteLength(n);
    LemmaBigModeLength(n);
    assert BigModeLength(s[0]) == m;
    var le := LittleEndian(n, m);
    assert s[1..1 + m] == le && s[1 + m..] == rest;
    LemmaFromLittleEndianOfLittleEndian(n, m);
    LemmaLittleEndianTopByte(n, m);
    assert s[m] == le[m - 1];
  }

  /** Whatever the decoder accepts is exactly an encoding followed by the rest. */
  lemma LemmaDecodeCanonical(s: seq<u8>)
    requires Decode(s).Some?
    ensures Encodable(Decode(s).value.0)
    ensures s == Encode(Decode(s).value.0) + Decode(s).value.1
  {
    if s[0] as nat % 4 == 0 {
      assert s == [s[0]] + s[1..];
    } else if s[0] as nat % 4 == 1 {
      LemmaCanonicalTwoByte(s);
    } else if s[0] as nat % 4 == 2 {
      LemmaCanonicalFourByte(s);
    } else {
      LemmaCanonicalBig(s);
    }
  }

  lemma LemmaCanonicalTwoByte(s: seq<u8>)
    requires Decode(s).Some? && s[0] as nat % 4 == 1
    ensures Encodable(Decode(s).value.0)
    ensures s == Encode(Decode(s).value.0) + Decode(s).value.1
  {
    var n := Decode(s).value.0;
    var v := FromLittleEndian(s[..2]);
    LemmaFromLittleEndianLowBits(s[..2]);
    assert v == n * 4 + 1;
    LemmaLittleEndianOfFromLittleEndian(s[..2]);
    assert Encodable(n) by { LemmaByteLengthBelow(n, 2); }
    assert Encode(n) == s[..2];
    assert s == s[..2] + s[2..];
  }

  lemma LemmaCanonicalFourByte(s: seq<u8>)
    requires Decode(s).Some? && s[0] as nat % 4 == 2
    ensures Encodable(Decode(s).value.0)
    ensures s == Encode(Decode(s).value.0) + Decode(s).value.1
  {
    var n := Decode(s).value.0;
    var v := FromLittleEndian(s[..4]);
    LemmaFromLittleEndianLowBits(s[..4]);
    assert v == n * 4 + 2;
    LemmaLittleEndianOfFromLittleEndian(s[..4]);
    assert Encodable(n) by { LemmaByteLengthBelow(n, 4); }
    assert Encode(n) == s[..4];
    assert s == s[..4] + s[4..];
  }

  lemma LemmaCanonicalBig(s: seq<u8>)
    requires Decode(s).Some? && s[0] as nat % 4 == 3
    ensures Encodable(Decode(s).value.0)
    ensures s == Encode(Decode(s).value.0) + Decode(s).value.1
  {
    var m := BigModeLength(s[0]);
    var b := s[1..1 + m];
    var n := FromLittleEndian(b);
    assert Decode(s).value == (n, s[1 + m..]);
    assert b[m - 1] == s[m];
    LemmaFromLittleEndianTopByte(b);
    LemmaByteLengthUnique(n, m);
    LemmaLittleEndianOfFromLittleEndian(b);
    assert s[0] == ((m - 4) * 4 + 3) as u8;
    assert Encode(n) == [s[0]] + b;
    assert s == [s[0]] + b + s[1 + m..];
  }

  // ---- Compact<u32> and Compact<u128>: the widths the extrinsic format uses ----

  function EncodeCompactU32(x: u32): (r: seq<u8>)
    ensures 1 <= |r| <= 5
  {
    LemmaPow256Four();
    LemmaEncodedLengthBelow(x as nat, 4);
    Encode(x as nat)
  }

  function EncodeCompactU128(x: u128): (r: seq<u8>)
    ensures 1 <= |r| <= 17
  {
    LemmaPow256Sixteen();
    LemmaEncodedLengthBelow(x as nat, 16);
    Encode(x as nat)
  }

  /** A value that fits in `k >= 4` bytes encodes in at most `k + 1` bytes. */
  lemma LemmaEncodedLengthBelow(n: nat, k: nat)
    requires 4 <= k <= MAX_BYTES && n < Pow256(k)
    ensures Encodable(n) && |Encode(n)| <= k + 1
  {
    LemmaByteLengthBelow(n, k);
  }

  lemma LemmaCompactU32Encodable(x: u32)
    ensures Encodable(x as nat)
  {
    LemmaPow256Four();
    LemmaByteLengthBelow(x as nat, 4);
  }

  lemma LemmaCompactU128Encodable(x: u128)
    ensures Encodable(x as nat)
  {
    LemmaPow256Sixteen();
    LemmaByteLengthBelow(x as nat, 16);
  }

  /** `Compact<u32>` decoding: a canonical compact integer that fits in 32 bits. */
  function DecodeCompactU32(s: seq<u8>): (r: Option<(u32, seq<u8>)>)
  {
    match Decode(s)
    case None => None
    case Some((n, rest)) =>
      if n < 0x1_0000_0000 then Some((n as u32, rest)) else None
  }

  /** `Compact<u128>` decoding: a canonical compact integer that fits in 128 bits. */
  function DecodeCompactU128(s: seq<u8>): (r: Option<(u128, seq<u8>)>)
  {
    match Decode(s)
    case None => None
    case Some((n, rest)) =>
      if n < 0x1_0000_0000_0000_0000_0000_0000_0000_0000 then Some((n as u128, rest)) else None
  }

  lemma LemmaCompactU32RoundTrip(x: u32, rest: seq<u8>)
    ensures DecodeCompactU32(EncodeCompactU32(x) + rest) == Some((x, rest))
  {
    LemmaCompactU32Encodable(x);
    LemmaDecodeEncode(x as nat, rest);
  }

  lemma LemmaCompactU32Canonical(s: seq<u8>)
    requires DecodeCompactU32(s).Some?
    ensures s == EncodeCompactU32(DecodeCompactU32(s).value.0) + DecodeCompactU32(s).value.1
  {
    LemmaDecodeCanonical(s);
  }

  lemma LemmaCompactU128RoundTrip(x: u128, rest: seq<u8>)
    ensures DecodeCompactU128(EncodeCompactU128(x) + rest) == Some((x, rest))
  {
    LemmaCompactU128Encodable(x);
    LemmaDecodeEncode(x as nat, rest);
  }

  lemma LemmaCompactU128Canonical(s: seq<u8>)
    requires DecodeCompactU128(s).Some?
    ensures s == EncodeCompactU128(DecodeCompactU128(s).value.0) + DecodeCompactU128(s).value.1
  {
    LemmaDecodeCanonical(s);
  }
}
