/**
 The signing engine: `Signature::new` and `SignatureXcm::new_encoded_data`
 (src/utils/tx_manager.rs:73-112).

 The signed bytes are the encoded call followed by the encoded `Extra` and
 `Additional` tuples. A payload longer than 256 bytes is replaced by its
 blake2-256 digest before signing; a payload of at most 256 bytes is signed as
 it is.

 blake2-256 and sr25519 signing are not modelled: they enter as the parameters
 `hash` and `sign`. sr25519 signing is randomised, so a `Signer` value stands for
 one draw of the signer, and the properties below are about the message handed
 to it.
 */
module Signing {
  import opened Bytes
  import Compact
  import opened Runtime
  import opened Extensions
  import opened Calls

  /** blake2-256: any byte string to a 32-byte digest. */
  type Hasher = seq<u8> -> Bytes32

  /** The development keyrings a signature can come from. */
  datatype Keyring = Alice | Bob | Charlie | Dave | Eve | Ferdie | One | Two

  /** sr25519 signing with a keyring's secret key: message to 64-byte signature. */
  type Signer = (Keyring, seq<u8>) -> Bytes64

  /** Payloads longer than this are hashed before signing. */
  const MAX_RAW_PAYLOAD: nat := 256

  /** The message handed to the signer for a given payload. */
  function SigningMessage(hash: Hasher, payload: seq<u8>): (m: seq<u8>)
    ensures |m| <= MAX_RAW_PAYLOAD
    ensures m == payload <==> |payload| <= MAX_RAW_PAYLOAD
    ensures |payload| > MAX_RAW_PAYLOAD ==> m == hash(payload) && |m| == 32
  {
    if |payload| > MAX_RAW_PAYLOAD then hash(payload) else payload
  }

  /** The bytes of the tuple `(call, extra, additional)`. */
  function CallPayload(call: Call, extra: Extra, additional: Additional): (p: seq<u8>) {
    EncodeCall(call) + EncodeExtra(extra) + EncodeAdditional(additional)
  }

  /** The bytes of a pre-encoded call blob extended with the encoded `(extra, additional)`. */
  function BlobPayload(encoded: seq<u8>, extra: Extra, additional: Additional): (p: seq<u8>)
    ensures |p| == |encoded| + |EncodeExtra(extra)| + 72
    ensures p[..|encoded|] == encoded
    ensures p[|encoded|..|encoded| + |EncodeExtra(extra)|] == EncodeExtra(extra)
    ensures p[|encoded| + |EncodeExtra(extra)|..] == EncodeAdditional(additional)
  {
    encoded + (EncodeExtra(extra) + EncodeAdditional(additional))
  }

  /** `Signature::new`: sign a structured call with its signed extensions. */
  function SignatureNew(sign: Signer, hash: Hasher, keyring: Keyring,
                        call: Call, extra: Extra, additional: Additional): (sig: Bytes64)
    ensures var payload := EncodeCall(call) + EncodeExtra(extra) + EncodeAdditional(additional);
            && (|payload| <= MAX_RAW_PAYLOAD ==> sig == sign(keyring, payload))
            && (|payload| > MAX_RAW_PAYLOAD ==> sig == sign(keyring, hash(payload)))
  {
    sign(keyring, SigningMessage(hash, CallPayload(call, extra, additional)))
  }

  /** `SignatureXcm::new_encoded_data`: sign a pre-encoded call blob with its signed extensions. */
  function SignatureXcmNewEncodedData(sign: Signer, hash: Hasher, keyring: Keyring,
                                      encoded: seq<u8>, extra: Extra, additional: Additional): (sig: Bytes64)
    ensures var payload := encoded + EncodeExtra(extra) + EncodeAdditional(additional);
            && (|payload| <= MAX_RAW_PAYLOAD ==> sig == sign(keyring, payload))
            && (|payload| > MAX_RAW_PAYLOAD ==> sig == sign(keyring, hash(payload)))
  {
    assert BlobPayload(encoded, extra, additional) == encoded + EncodeExtra(extra) + EncodeAdditional(additional);
    sign(keyring, SigningMessage(hash, BlobPayload(encoded, extra, additional)))
  }

  /**
   Signing a structured call and signing its pre-encoded bytes hand the signer
   the same message, so with the same draw of the signer they give the same
   signature.
   */
  lemma LemmaStructuredAndBlobSignSameMessage(sign: Signer, hash: Hasher, keyring: Keyring,
                                              call: Call, extra: Extra, additional: Additional)
    ensures CallPayload(call, extra, additional) == BlobPayload(EncodeCall(call), extra, additional)
    ensures SignatureNew(sign, hash, keyring, call, extra, additional)
            == SignatureXcmNewEncodedData(sign, hash, keyring, EncodeCall(call), extra, additional)
  {
  }

  /** With the builders' tuples, a blob is signed raw exactly when it is at most 143 - |compact(nonce)| bytes. */
  lemma LemmaBlobThreshold(hash: Hasher, blob: seq<u8>, nonce: u32, caller: AccountId32,
                           version: RuntimeVersion, genesisHash: H256)
    ensures var payload := BlobPayload(blob, CreateExtra(nonce, caller), CreateAdditional(version, genesisHash));
            && |payload| == |blob| + 113 + |Compact.EncodeCompactU32(nonce)|
            && (SigningMessage(hash, payload) == payload
                <==> |blob| + |Compact.EncodeCompactU32(nonce)| <= 143)
  {
  }
}
