/**
 Concrete runs of the engine: the balance transfer `send_extrinsic` builds
 (src/bin/05_transfer_balance.rs) and the two pre-encoded XCM calls submitted
 by src/bin/08_xcm.rs.
 */
module Scenarios {
  import opened Wrappers
  import opened Bytes
  import Compact
  import opened Runtime
  import opened Extensions
  import opened Calls
  import opened Signing
  import opened Extrinsic

  /** Bob's development account, as it appears inside the first XCM blob. */
  const BOB: AccountId32 := [
    0x8e, 0xaf, 0x04, 0x15, 0x16, 0x87, 0x73, 0x63, 0x26, 0xc9, 0xfe, 0xa1, 0x7e, 0x25, 0xfc, 0x52,
    0x87, 0x61, 0x36, 0x93, 0xc9, 0x12, 0x90, 0x9c, 0xb2, 0x26, 0xaa, 0x47, 0x94, 0xf2, 0x6a, 0x48]

  const ZERO_HASH: H256 := seq(32, _ => 0)

  /** The transfer amount `send_extrinsic` sends. */
  const AMOUNT: u128 := 123456789012345

  /** Alice to Bob: the XCM call of src/bin/08_xcm.rs line 11. */
  const XCM_BLOB_ALICE_TO_BOB: seq<u8> := [
    0x1f, 0x09, 0x01, 0x01, 0x01, 0x00, 0x41, 0x1f, 0x01, 0x00, 0x01, 0x01, 0x00, 0x8e, 0xaf, 0x04,
    0x15, 0x16, 0x87, 0x73, 0x63, 0x26, 0xc9, 0xfe, 0xa1, 0x7e, 0x25, 0xfc, 0x52, 0x87, 0x61, 0x36,
    0x93, 0xc9, 0x12, 0x90, 0x9c, 0xb2, 0x26, 0xaa, 0x47, 0x94, 0xf2, 0x6a, 0x48, 0x01, 0x04, 0x00,
    0x00, 0x02, 0x04, 0x32, 0x05, 0x8d, 0x01, 0x00, 0x0f, 0x00, 0x80, 0xc6, 0xa4, 0x7e, 0x8d, 0x03,
    0x00, 0x00, 0x00, 0x00, 0x00]

  /** Bob to Alice: the XCM call of src/bin/08_xcm.rs line 26. */
  const XCM_BLOB_BOB_TO_ALICE: seq<u8> := [
    0x1f, 0x09, 0x01, 0x01, 0x01, 0x00, 0xa1, 0x0f, 0x01, 0x00, 0x01, 0x01, 0x00, 0x90, 0xb5, 0xab,
    0x20, 0x5c, 0x69, 0x74, 0xc9, 0xea, 0x84, 0x1b, 0xe6, 0x88, 0x86, 0x46, 0x33, 0xdc, 0x9c, 0xa8,
    0xa3, 0x57, 0x84, 0x3e, 0xea, 0xcf, 0x23, 0x14, 0x64, 0x99, 0x65, 0xfe, 0x22, 0x01, 0x04, 0x00,
    0x01, 0x03, 0x00, 0xa1, 0x0f, 0x04, 0x32, 0x05, 0x8d, 0x01, 0x00, 0x0f, 0x00, 0x40, 0x4c, 0x94,
    0x8b, 0x32, 0x03, 0x00, 0x00, 0x00, 0x00, 0x00]

  lemma LemmaAmountEncoding()
    ensures |Compact.EncodeCompactU128(AMOUNT)| == 7
  {
    assert ByteLength(AMOUNT as nat) == 6;
  }

  /**
   Nonce 0, spec and transaction version 1, an all-zero genesis hash and the
   transfer of 123456789012345 to Bob: the signed payload is 156 bytes and is
   signed raw, and the envelope is a two-byte prefix announcing the 183 bytes
   after it, the first of which is 0x84.
   */
  lemma LemmaTransferScenario(sign: Signer, hash: Hasher, keyring: Keyring, caller: AccountId32)
    ensures var extra := CreateExtra(0, caller);
            var additional := CreateAdditional(RuntimeVersion(1, 1), ZERO_HASH);
            var call := TransferCall(10, 0, Id(BOB), AMOUNT);
            var payload := CallPayload(call, extra, additional);
            var sig := SignatureNew(sign, hash, keyring, call, extra, additional);
            var out := EncodeExtrinsic(Some(SignaturePayload(Id(caller), Sr25519(sig), extra)), call);
            && |payload| == 156
            && SigningMessage(hash, payload) == payload
            && sig == sign(keyring, payload)
            && |out| == 185
            && Compact.DecodeCompactU32(out) == Some((183, out[2..]))
            && out[2] == 0x84
  {
    var extra := CreateExtra(0, caller);
    var additional := CreateAdditional(RuntimeVersion(1, 1), ZERO_HASH);
    var call := TransferCall(10, 0, Id(BOB), AMOUNT);
    LemmaAmountEncoding();
    assert |EncodeCall(call)| == 42;
    assert |Compact.EncodeCompactU32(0)| == 1;
    var sig := SignatureNew(sign, hash, keyring, call, extra, additional);
    var p := SignaturePayload(Id(caller), Sr25519(sig), extra);
    var body := Body(Some(p), EncodeCall(call));
    assert |body| == 183;
    assert |Compact.EncodeCompactU32(183)| == 2;
    var out := EncodeExtrinsic(Some(p), call);
    assert out == LengthPrefixed(body);
    assert out[2] == body[0];
  }

  /** Both XCM blobs are short enough that, whatever the nonce, they are signed raw. */
  lemma LemmaXcmBlobsSignedRaw(hash: Hasher, nonce: u32, caller: AccountId32,
                               version: RuntimeVersion, genesisHash: H256)
    ensures var extra := CreateExtra(nonce, caller);
            var additional := CreateAdditional(version, genesisHash);
            && |XCM_BLOB_ALICE_TO_BOB| == 69 && |XCM_BLOB_BOB_TO_ALICE| == 72
            && SigningMessage(hash, BlobPayload(XCM_BLOB_ALICE_TO_BOB, extra, additional))
               == BlobPayload(XCM_BLOB_ALICE_TO_BOB, extra, additional)
            && SigningMessage(hash, BlobPayload(XCM_BLOB_BOB_TO_ALICE, extra, additional))
               == BlobPayload(XCM_BLOB_BOB_TO_ALICE, extra, additional)
  {
    LemmaBlobThreshold(hash, XCM_BLOB_ALICE_TO_BOB, nonce, caller, version, genesisHash);
    LemmaBlobThreshold(hash, XCM_BLOB_BOB_TO_ALICE, nonce, caller, version, genesisHash);
  }

  /**
   The threshold is inclusive: with a nonce below 64, a 142-byte blob makes a
   256-byte payload, which is signed raw, and a 143-byte blob a 257-byte
   payload, which is hashed.
   */
  lemma LemmaBlobBoundary(hash: Hasher, blob: seq<u8>, nonce: u32, caller: AccountId32,
                          version: RuntimeVersion, genesisHash: H256)
    requires nonce < 64
    requires |blob| == 142 || |blob| == 143
    ensures var payload := BlobPayload(blob, CreateExtra(nonce, caller), CreateAdditional(version, genesisHash));
            && (|blob| == 142 ==> |payload| == 256 && SigningMessage(hash, payload) == payload)
            && (|blob| == 143 ==> |payload| == 257 && SigningMessage(hash, payload) == hash(payload))
  {
    LemmaBlobThreshold(hash, blob, nonce, caller, version, genesisHash);
    assert |Compact.EncodeCompactU32(nonce)| == 1;
  }
}
