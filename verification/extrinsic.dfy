/**
 The extrinsic envelope: `encode_extrinsic` and `encode_extrinsic_encoded_data`
 (src/utils/tx_manager.rs:371-414).

 The body is one version byte (format version 4, with bit 7 set when signed),
 then the encoded signature triple `(address, signature, extra)` when there is
 one, then the call bytes. The output is the body prefixed with its length as a
 `Compact<u32>`; the length is taken as `tmp.len() as u32`, so it is the body
 length modulo 2^32.

 A decoder for the envelope is given so that the encoders' promises can be
 stated as a round trip.
 */
module Extrinsic {
  import opened Wrappers
  import opened Bytes
  import Compact
  import opened Runtime
  import opened Extensions
  import opened Calls

  /** The signature triple carried by a signed extrinsic. */
  datatype SignaturePayload = SignaturePayload(address: MultiAddress, signature: MultiSignature, extra: Extra)

  function EncodeSignaturePayload(p: SignaturePayload): (r: seq<u8>) {
    EncodeMultiAddress(p.address) + EncodeMultiSignature(p.signature) + EncodeExtra(p.extra)
  }

  function DecodeSignaturePayload(s: seq<u8>): (r: Option<(SignaturePayload, seq<u8>)>) {
    match DecodeMultiAddress(s)
    case None => None
    case Some((address, s1)) =>
      match DecodeMultiSignature(s1)
      case None => None
      case Some((signature, s2)) =>
        match DecodeExtra(s2)
        case None => None
        case Some((extra, s3)) => Some((SignaturePayload(address, signature, extra), s3))
  }

  lemma LemmaSignaturePayloadRoundTrip(p: SignaturePayload, rest: seq<u8>)
    ensures DecodeSignaturePayload(EncodeSignaturePayload(p) + rest) == Some((p, rest))
  {
    var s2 := EncodeExtra(p.extra) + rest;
    var s1 := EncodeMultiSignature(p.signature) + s2;
    var s := EncodeSignaturePayload(p) + rest;
    LemmaRegroup3(EncodeMultiAddress(p.address), EncodeMultiSignature(p.signature), EncodeExtra(p.extra), rest);
    assert s == EncodeMultiAddress(p.address) + s1;
    LemmaMultiAddressRoundTrip(p.address, s1);
    assert DecodeMultiAddress(s) == Some((p.address, s1));
    LemmaMultiSignatureRoundTrip(p.signature, s2);
    assert DecodeMultiSignature(s1) == Some((p.signature, s2));
    LemmaExtraRoundTrip(p.extra, rest);
    assert DecodeExtra(s2) == Some((p.extra, rest));
  }

  lemma LemmaSignaturePayloadCanonical(s: seq<u8>)
    requires DecodeSignaturePayload(s).Some?
    ensures s == EncodeSignaturePayload(DecodeSignaturePayload(s).value.0) + DecodeSignaturePayload(s).value.1
  {
    var (address, s1) := DecodeMultiAddress(s).value;
    var (signature, s2) := DecodeMultiSignature(s1).value;
    var (extra, s3) := DecodeExtra(s2).value;
    assert DecodeSignaturePayload(s).value == (SignaturePayload(address, signature, extra), s3);
    LemmaMultiAddressCanonical(s);
    LemmaMultiSignatureCanonical(s1);
    LemmaExtraCanonical(s2);
    LemmaChain3(s, EncodeMultiAddress(address), s1, EncodeMultiSignature(signature), s2, EncodeExtra(extra), s3);
  }

  // ---- The version byte ----

  const EXTRINSIC_VERSION: bv8 := 4
  const SIGNED_BIT: bv8 := 0x80
  const VERSION_MASK: bv8 := 0x7f

  /** `EXTRINSIC_VERSION | 0b1000_0000` when signed, `EXTRINSIC_VERSION & 0b0111_1111` when not. */
  function VersionByte(signed: bool): (b: u8)
    ensures b == (if signed then 0x84 else 0x04)
    ensures (b as bv8) & SIGNED_BIT != 0 <==> signed
    ensures (b as bv8) & VERSION_MASK == EXTRINSIC_VERSION
  {
    if signed then (EXTRINSIC_VERSION | SIGNED_BIT) as u8 else (EXTRINSIC_VERSION & VERSION_MASK) as u8
  }

  // ---- The envelope ----

  /** The bytes `tmp` gathers before the length prefix. */
  function Body(sig: Option<SignaturePayload>, callBytes: seq<u8>): (body: seq<u8>) {
    match sig
    case Some(p) => [VersionByte(true)] + EncodeSignaturePayload(p) + callBytes
    case None => [VersionByte(false)] + callBytes
  }

  /** `tmp.len() as u32` keeps the low 32 bits of the length. */
  const LENGTH_MODULUS: nat := 0x1_0000_0000

  function TruncatedLength(body: seq<u8>): (len: u32) {
    (|body| % LENGTH_MODULUS) as u32
  }

  /** The body prefixed with its (truncated) length as a `Compact<u32>`. */
  function LengthPrefixed(body: seq<u8>): (out: seq<u8>)
    ensures |body| < |out| && out[|out| - |body|..] == body
  {
    Compact.EncodeCompactU32(TruncatedLength(body)) + body
  }

  /** `encode_extrinsic`: the envelope around a structured call. */
  function EncodeExtrinsic(sig: Option<SignaturePayload>, call: Call): (out: seq<u8>)
    ensures var body := Body(sig, EncodeCall(call));
            |body| < LENGTH_MODULUS ==> Compact.DecodeCompactU32(out) == Some((|body| as u32, body))
  {
    LemmaLengthPrefix(Body(sig, EncodeCall(call)));
    LengthPrefixed(Body(sig, EncodeCall(call)))
  }

  /** `encode_extrinsic_encoded_data`: the envelope around a pre-encoded call blob. */
  function EncodeExtrinsicEncodedData(sig: Option<SignaturePayload>, data: seq<u8>): (out: seq<u8>)
    ensures |data| < |out| && out[|out| - |data|..] == data
    ensures var body := Body(sig, data);
            |body| < LENGTH_MODULUS ==> Compact.DecodeCompactU32(out) == Some((|body| as u32, body))
  {
    LemmaLengthPrefix(Body(sig, data));
    LemmaBodyEndsWithCall(sig, data);
    LengthPrefixed(Body(sig, data))
  }

  lemma LemmaBodyEndsWithCall(sig: Option<SignaturePayload>, callBytes: seq<u8>)
    ensures var body := Body(sig, callBytes);
            |callBytes| < |body| && body[|body| - |callBytes|..] == callBytes
  {
  }

  /** The length prefix decodes to exactly the number of bytes that follow it, while the body fits in 32 bits. */
  lemma LemmaLengthPrefix(body: seq<u8>)
    ensures |body| < LENGTH_MODULUS ==> Compact.DecodeCompactU32(LengthPrefixed(body)) == Some((|body| as u32, body))
  {
    Compact.LemmaCompactU32RoundTrip(TruncatedLength(body), body);
  }

  /** From 2^32 bytes on, the prefix announces the length modulo 2^32, which is not the body's length. */
  lemma LemmaLengthPrefixTruncates(body: seq<u8>)
    requires |body| >= LENGTH_MODULUS
    ensures Compact.DecodeCompactU32(LengthPrefixed(body)) == Some((TruncatedLength(body), body))
    ensures TruncatedLength(body) as nat != |body|
  {
    Compact.LemmaCompactU32RoundTrip(TruncatedLength(body), body);
  }

  /** Encoding a structured call is encoding its bytes as a pre-encoded blob. */
  lemma LemmaEncodeExtrinsicIsEncodedData(sig: Option<SignaturePayload>, call: Call)
    ensures EncodeExtrinsic(sig, call) == EncodeExtrinsicEncodedData(sig, EncodeCall(call))
  {
  }

  // ---- Decoding the envelope ----

  /** A decoded extrinsic: the optional signature triple and the call bytes. */
  datatype UncheckedExtrinsic = UncheckedExtrinsic(signature: Option<SignaturePayload>, call: seq<u8>)

  /** Splits a body into its optional signature triple and its call bytes. */
  function DecodeBody(body: seq<u8>): (r: Option<UncheckedExtrinsic>) {
    if |body| == 0 then None
    else if body[0] == VersionByte(true) then
      match DecodeSignaturePayload(body[1..])
      case None => None
      case Some((p, callBytes)) => Some(UncheckedExtrinsic(Some(p), callBytes))
    else if body[0] == VersionByte(false) then
      Some(UncheckedExtrinsic(None, body[1..]))
    else None
  }

  /** Reads the length prefix, insists it counts exactly the remaining bytes, and splits the body. */
  function DecodeExtrinsic(s: seq<u8>): (r: Option<UncheckedExtrinsic>) {
    match Compact.DecodeCompactU32(s)
    case None => None
    case Some((len, body)) =>
      if len as nat != |body| then None else DecodeBody(body)
  }

  lemma LemmaDecodeBody(sig: Option<SignaturePayload>, data: seq<u8>)
    ensures DecodeBody(Body(sig, data)) == Some(UncheckedExtrinsic(sig, data))
  {
    match sig
    case None => LemmaDecodeUnsignedBody(data);
    case Some(p) => LemmaDecodeSignedBody(p, data);
  }

  lemma LemmaDecodeUnsignedBody(data: seq<u8>)
    ensures DecodeBody(Body(None, data)) == Some(UncheckedExtrinsic(None, data))
  {
    var body := Body(None, data);
    assert body[0] == VersionByte(false);
    assert body[1..] == data;
  }

  lemma LemmaDecodeSignedBody(p: SignaturePayload, data: seq<u8>)
    ensures DecodeBody(Body(Some(p), data)) == Some(UncheckedExtrinsic(Some(p), data))
  {
    LemmaDropVersion(VersionByte(true), EncodeSignaturePayload(p), data);
    LemmaSignaturePayloadRoundTrip(p, data);
  }

  lemma LemmaDropVersion(v: u8, e: seq<u8>, data: seq<u8>)
    ensures ([v] + e + data)[0] == v && ([v] + e + data)[1..] == e + data
  {
  }

  lemma LemmaDecodeBodyCanonical(body: seq<u8>)
    requires DecodeBody(body).Some?
    ensures body == Body(DecodeBody(body).value.signature, DecodeBody(body).value.call)
  {
    assert body == [body[0]] + body[1..];
    if body[0] == VersionByte(true) {
      LemmaSignaturePayloadCanonical(body[1..]);
    }
  }

  /** Decoding the envelope recovers the signature triple and the call bytes verbatim. */
  lemma LemmaDecodeEncodeExtrinsic(sig: Option<SignaturePayload>, data: seq<u8>)
    requires |Body(sig, data)| < LENGTH_MODULUS
    ensures DecodeExtrinsic(EncodeExtrinsicEncodedData(sig, data)) == Some(UncheckedExtrinsic(sig, data))
  {
    var body := Body(sig, data);
    assert Compact.DecodeCompactU32(EncodeExtrinsicEncodedData(sig, data)) == Some((|body| as u32, body));
    LemmaDecodeBody(sig, data);
  }

  /** Every envelope the decoder accepts is the encoder's output for what it decodes to. */
  lemma LemmaDecodeExtrinsicCanonical(s: seq<u8>)
    requires DecodeExtrinsic(s).Some?
    ensures var x := DecodeExtrinsic(s).value;
            && |Body(x.signature, x.call)| < LENGTH_MODULUS
            && s == EncodeExtrinsicEncodedData(x.signature, x.call)
  {
    var (len, body) := Compact.DecodeCompactU32(s).value;
    var x := DecodeBody(body).value;
    assert DecodeExtrinsic(s).value == x;
    Compact.LemmaCompactU32Canonical(s);
    assert s == Compact.EncodeCompactU32(len) + body;
    LemmaDecodeBodyCanonical(body);
    assert Body(x.signature, x.call) == body;
    assert TruncatedLength(body) == len;
    assert s == LengthPrefixed(body);
  }
}
