/**
 The signed extensions of the transaction manager (src/utils/tx_manager.rs):
 the explicit `Extra` tuple that travels inside the extrinsic, the implicit
 `Additional` tuple that is only folded into the signed bytes, and the two
 builders `create_extra` and `create_additional`.

 A tuple and a struct encode as the concatenation of their fields in order; an
 `Option` encodes as the tag 0x00 for `None`, or the tag 0x01 followed by the
 value for `Some`.
 */
module Extensions {
  import opened Wrappers
  import opened Bytes
  import Compact
  import opened Runtime

  const NONE_TAG: u8 := 0x00
  const SOME_TAG: u8 := 0x01

  /** The custom tip extension: a compact tip and three optional fields, in this order. */
  datatype PotVote = PotVote(
    tip: u128,
    assetId: Option<u32>,
    feePayer: Option<AccountId32>,
    voteCandidate: Option<AccountId32>)

  /** The explicit signed-extension tuple `(Era, Compact<u32>, PotVote)`. */
  datatype Extra = Extra(era: Era, nonce: u32, potVote: PotVote)

  /** The fields of the runtime version the builder reads. */
  datatype RuntimeVersion = RuntimeVersion(specVersion: u32, transactionVersion: u32)

  /** The implicit signed tuple `(u32, u32, H256, H256)`. */
  datatype Additional = Additional(
    specVersion: u32,
    transactionVersion: u32,
    genesisHash: H256,
    checkHash: H256)

  // ---- Option fields ----

  function EncodeOptionU32(o: Option<u32>): (r: seq<u8>)
  {
    match o
    case None => [NONE_TAG]
    case Some(x) => [SOME_TAG] + EncodeU32(x)
  }

  function DecodeOptionU32(s: seq<u8>): (r: Option<(Option<u32>, seq<u8>)>)
  {
    if |s| == 0 then None
    else if s[0] == NONE_TAG then Some((None, s[1..]))
    else if s[0] == SOME_TAG then
      match DecodeU32(s[1..])
      case None => None
      case Some((x, rest)) => Some((Some(x), rest))
    else None
  }

  function EncodeOptionAccount(o: Option<AccountId32>): (r: seq<u8>)
  {
    match o
    case None => [NONE_TAG]
    case Some(a) => [SOME_TAG] + a
  }

  function DecodeOptionAccount(s: seq<u8>): (r: Option<(Option<AccountId32>, seq<u8>)>)
  {
    if |s| == 0 then None
    else if s[0] == NONE_TAG then Some((None, s[1..]))
    else if s[0] == SOME_TAG then
      match DecodeBytes32(s[1..])
      case None => None
      case Some((a, rest)) => Some((Some(a), rest))
    else None
  }

  lemma LemmaOptionU32RoundTrip(o: Option<u32>, rest: seq<u8>)
    ensures DecodeOptionU32(EncodeOptionU32(o) + rest) == Some((o, rest))
  {
    var s := EncodeOptionU32(o) + rest;
    match o
    case None =>
      assert s[1..] == rest;
    case Some(x) =>
      assert s[1..] == EncodeU32(x) + rest;
      LemmaDecodeU32RoundTrip(x, rest);
  }

  lemma LemmaOptionU32Canonical(s: seq<u8>)
    requires DecodeOptionU32(s).Some?
    ensures s == EncodeOptionU32(DecodeOptionU32(s).value.0) + DecodeOptionU32(s).value.1
  {
    assert s == [s[0]] + s[1..];
    if s[0] == SOME_TAG {
      LemmaDecodeU32Canonical(s[1..]);
    }
  }

  lemma LemmaOptionAccountRoundTrip(o: Option<AccountId32>, rest: seq<u8>)
    ensures DecodeOptionAccount(EncodeOptionAccount(o) + rest) == Some((o, rest))
  {
    var s := EncodeOptionAccount(o) + rest;
    match o
    case None =>
      assert s[1..] == rest;
    case Some(a) =>
      assert s[1..] == a + rest;
      assert (a + rest)[..32] == a;
  }

  lemma LemmaOptionAccountCanonical(s: seq<u8>)
    requires DecodeOptionAccount(s).Some?
    ensures s == EncodeOptionAccount(DecodeOptionAccount(s).value.0) + DecodeOptionAccount(s).value.1
  {
    assert s == [s[0]] + s[1..];
  }

  // ---- PotVote ----

  function EncodePotVote(v: PotVote): (r: seq<u8>)
  {
    Compact.EncodeCompactU128(v.tip)
    + EncodeOptionU32(v.assetId)
    + EncodeOptionAccount(v.feePayer)
    + EncodeOptionAccount(v.voteCandidate)
  }

  function DecodePotVote(s: seq<u8>): (r: Option<(PotVote, seq<u8>)>)
  {
    match Compact.DecodeCompactU128(s)
    case None => None
    case Some((tip, s1)) =>
      match DecodeOptionU32(s1)
      case None => None
      case Some((assetId, s2)) =>
        match DecodeOptionAccount(s2)
        case None => None
        case Some((feePayer, s3)) =>
          match DecodeOptionAccount(s3)
          case None => None
          case Some((voteCandidate, s4)) =>
            Some((PotVote(tip, assetId, feePayer, voteCandidate), s4))
  }

  lemma LemmaPotVoteRoundTrip(v: PotVote, rest: seq<u8>)
    ensures DecodePotVote(EncodePotVote(v) + rest) == Some((v, rest))
  {
    var s3 := EncodeOptionAccount(v.voteCandidate) + rest;
    var s2 := EncodeOptionAccount(v.feePayer) + s3;
    var s1 := EncodeOptionU32(v.assetId) + s2;
    var s := EncodePotVote(v) + rest;
    LemmaRegroup4(Compact.EncodeCompactU128(v.tip), EncodeOptionU32(v.assetId),
                  EncodeOptionAccount(v.feePayer), EncodeOptionAccount(v.voteCandidate), rest);
    assert s == Compact.EncodeCompactU128(v.tip) + s1;
    Compact.LemmaCompactU128RoundTrip(v.tip, s1);
    assert Compact.DecodeCompactU128(s) == Some((v.tip, s1));
    LemmaOptionU32RoundTrip(v.assetId, s2);
    LemmaOptionAccountRoundTrip(v.feePayer, s3);
    LemmaOptionAccountRoundTrip(v.voteCandidate, rest);
  }

  lemma LemmaPotVoteCanonical(s: seq<u8>)
    requires DecodePotVote(s).Some?
    ensures s == EncodePotVote(DecodePotVote(s).value.0) + DecodePotVote(s).value.1
  {
    var (tip, s1) := Compact.DecodeCompactU128(s).value;
    var (assetId, s2) := DecodeOptionU32(s1).value;
    var (feePayer, s3) := DecodeOptionAccount(s2).value;
    var (voteCandidate, s4) := DecodeOptionAccount(s3).value;
    var v := PotVote(tip, assetId, feePayer, voteCandidate);
    assert DecodePotVote(s).value == (v, s4);
    var c := Compact.EncodeCompactU128(tip);
    var a := EncodeOptionU32(assetId);
    var f := EncodeOptionAccount(feePayer);
    var w := EncodeOptionAccount(voteCandidate);
    Compact.LemmaCompactU128Canonical(s);
    LemmaOptionU32Canonical(s1);
    LemmaOptionAccountCanonical(s2);
    LemmaOptionAccountCanonical(s3);
    LemmaChain4(s, c, s1, a, s2, f, s3, w, s4);
  }

  // ---- Extra ----

  function EncodeExtra(e: Extra): (r: seq<u8>)
  {
    EncodeEra(e.era) + Compact.EncodeCompactU32(e.nonce) + EncodePotVote(e.potVote)
  }

  function DecodeExtra(s: seq<u8>): (r: Option<(Extra, seq<u8>)>)
  {
    match DecodeEra(s)
    case None => None
    case Some((era, s1)) =>
      match Compact.DecodeCompactU32(s1)
      case None => None
      case Some((nonce, s2)) =>
        match DecodePotVote(s2)
        case None => None
        case Some((potVote, s3)) => Some((Extra(era, nonce, potVote), s3))
  }

  lemma LemmaExtraRoundTrip(e: Extra, rest: seq<u8>)
    ensures DecodeExtra(EncodeExtra(e) + rest) == Some((e, rest))
  {
    var s2 := EncodePotVote(e.potVote) + rest;
    var s1 := Compact.EncodeCompactU32(e.nonce) + s2;
    var s := EncodeExtra(e) + rest;
    LemmaRegroup3(EncodeEra(e.era), Compact.EncodeCompactU32(e.nonce), EncodePotVote(e.potVote), rest);
    assert s == EncodeEra(e.era) + s1;
    LemmaEraRoundTrip(e.era, s1);
    assert DecodeEra(s) == Some((e.era, s1));
    Compact.LemmaCompactU32RoundTrip(e.nonce, s2);
    assert Compact.DecodeCompactU32(s1) == Some((e.nonce, s2));
    LemmaPotVoteRoundTrip(e.potVote, rest);
    assert DecodePotVote(s2) == Some((e.potVote, rest));
  }

  lemma LemmaExtraCanonical(s: seq<u8>)
    requires DecodeExtra(s).Some?
    ensures s == EncodeExtra(DecodeExtra(s).value.0) + DecodeExtra(s).value.1
  {
    var (era, s1) := DecodeEra(s).value;
    var (nonce, s2) := Compact.DecodeCompactU32(s1).value;
    var (potVote, s3) := DecodePotVote(s2).value;
    var e := Extra(era, nonce, potVote);
    assert DecodeExtra(s).value == (e, s3);
    LemmaEraCanonical(s);
    Compact.LemmaCompactU32Canonical(s1);
    LemmaPotVoteCanonical(s2);
    LemmaChain3(s, EncodeEra(era), s1, Compact.EncodeCompactU32(nonce), s2, EncodePotVote(potVote), s3);
  }

  // ---- Additional ----

  function EncodeAdditional(a: Additional): (r: seq<u8>)
    ensures |r| == 72
  {
    EncodeU32(a.specVersion) + EncodeU32(a.transactionVersion) + a.genesisHash + a.checkHash
  }

  // ---- The builders ----

  const TIP: u128 := 0
  const ASSET_ID: u32 := 99

  /** `create_extra`: immortal era, the caller's nonce, and a vote for the caller paid in asset 99. */
  function CreateExtra(nonce: u32, caller: AccountId32): (e: Extra)
    ensures e.era == Immortal && e.nonce == nonce
    ensures e.potVote == PotVote(0, Some(99), None, Some(caller))
    ensures EncodeExtra(e)
            == [0x00] + Compact.EncodeCompactU32(nonce)
               + [0x00] + [0x01, 99, 0, 0, 0] + [0x00] + [0x01] + caller
    ensures |EncodeExtra(e)| == 41 + |Compact.EncodeCompactU32(nonce)|
  {
    var e := Extra(Immortal, nonce, PotVote(TIP, Some(ASSET_ID), None, Some(caller)));
    assert Compact.EncodeCompactU128(TIP) == [0x00];
    assert EncodeU32(ASSET_ID) == [99, 0, 0, 0];
    e
  }

  /** `create_additional`: spec version, transaction version, then the genesis hash twice. */
  function CreateAdditional(version: RuntimeVersion, genesisHash: H256): (a: Additional)
    ensures a.checkHash == a.genesisHash == genesisHash
    ensures a.specVersion == version.specVersion && a.transactionVersion == version.transactionVersion
    ensures EncodeAdditional(a)[..4] == EncodeU32(version.specVersion)
    ensures EncodeAdditional(a)[4..8] == EncodeU32(version.transactionVersion)
    ensures EncodeAdditional(a)[8..40] == EncodeAdditional(a)[40..] == genesisHash
  {
    Additional(version.specVersion, version.transactionVersion, genesisHash, genesisHash)
  }
}
