/**
 The runtime types the extrinsic format borrows from the node's libraries, with
 the SCALE layouts those libraries give them. Only the variants the transaction
 manager constructs are modelled:

   AccountId32, H256          32 bytes, verbatim
   Era::Immortal              the single byte 0x00
   MultiAddress::Id(a)        0x00, then the 32 account bytes
   MultiSignature::Sr25519(s) 0x01, then the 64 signature bytes
 */
module Runtime {
  import opened Wrappers
  import opened Bytes

  type AccountId32 = Bytes32
  type H256 = Bytes32

  /** Transaction mortality; the transaction manager only ever uses `Immortal`. */
  datatype Era = Immortal

  const IMMORTAL_TAG: u8 := 0x00
  const ADDRESS_ID_TAG: u8 := 0x00
  const SR25519_TAG: u8 := 0x01

  function EncodeEra(era: Era): (r: seq<u8>)
    ensures r == [IMMORTAL_TAG]
  {
    match era
    case Immortal => [IMMORTAL_TAG]
  }

  function DecodeEra(s: seq<u8>): (r: Option<(Era, seq<u8>)>)
  {
    if |s| > 0 && s[0] == IMMORTAL_TAG then Some((Immortal, s[1..])) else None
  }

  lemma LemmaEraRoundTrip(era: Era, rest: seq<u8>)
    ensures DecodeEra(EncodeEra(era) + rest) == Some((era, rest))
  {
    assert (EncodeEra(era) + rest)[1..] == rest;
  }

  lemma LemmaEraCanonical(s: seq<u8>)
    requires DecodeEra(s).Some?
    ensures s == EncodeEra(DecodeEra(s).value.0) + DecodeEra(s).value.1
  {
    assert s == [s[0]] + s[1..];
  }

  /** The address form of the sender; only the plain account-id variant is used. */
  datatype MultiAddress = Id(account: AccountId32)

  function EncodeMultiAddress(a: MultiAddress): (r: seq<u8>)
    ensures |r| == 33 && r[0] == ADDRESS_ID_TAG && r[1..] == a.account
  {
    [ADDRESS_ID_TAG] + a.account
  }

  function DecodeMultiAddress(s: seq<u8>): (r: Option<(MultiAddress, seq<u8>)>)
  {
    if |s| == 0 || s[0] != ADDRESS_ID_TAG then None
    else
      match DecodeBytes32(s[1..])
      case None => None
      case Some((account, rest)) => Some((Id(account), rest))
  }

  lemma LemmaMultiAddressRoundTrip(a: MultiAddress, rest: seq<u8>)
    ensures DecodeMultiAddress(EncodeMultiAddress(a) + rest) == Some((a, rest))
  {
    var s := EncodeMultiAddress(a) + rest;
    assert s[1..] == a.account + rest;
    assert (a.account + rest)[..32] == a.account;
  }

  lemma LemmaMultiAddressCanonical(s: seq<u8>)
    requires DecodeMultiAddress(s).Some?
    ensures s == EncodeMultiAddress(DecodeMultiAddress(s).value.0) + DecodeMultiAddress(s).value.1
  {
    assert s == [s[0]] + s[1..];
  }

  /** The tagged signature; only the sr25519 variant is used. */
  datatype MultiSignature = Sr25519(signature: Bytes64)

  function EncodeMultiSignature(m: MultiSignature): (r: seq<u8>)
    ensures |r| == 65 && r[0] == SR25519_TAG && r[1..] == m.signature
  {
    [SR25519_TAG] + m.signature
  }

  function DecodeMultiSignature(s: seq<u8>): (r: Option<(MultiSignature, seq<u8>)>)
  {
    if |s| == 0 || s[0] != SR25519_TAG then None
    else
      match DecodeBytes64(s[1..])
      case None => None
      case Some((signature, rest)) => Some((Sr25519(signature), rest))
  }

  lemma LemmaMultiSignatureRoundTrip(m: MultiSignature, rest: seq<u8>)
    ensures DecodeMultiSignature(EncodeMultiSignature(m) + rest) == Some((m, rest))
  {
    var s := EncodeMultiSignature(m) + rest;
    assert s[1..] == m.signature + rest;
    assert (m.signature + rest)[..64] == m.signature;
  }

  lemma LemmaMultiSignatureCanonical(s: seq<u8>)
    requires DecodeMultiSignature(s).Some?
    ensures s == EncodeMultiSignature(DecodeMultiSignature(s).value.0) + DecodeMultiSignature(s).value.1
  {
    assert s == [s[0]] + s[1..];
  }
}
