# Transaction manager of send-extrinsic-rpc, modelled in Dafny

The transaction manager builds signed extrinsics for a Substrate chain. It
assembles the explicit signed extensions (`Extra`: era, nonce and the custom
`PotVote` tip), the implicit ones (`Additional`: runtime versions and the
genesis hash twice), and signs the bytes of `(call, extra, additional)`. Those
bytes are replaced by their blake2-256 digest when they are longer than 256
bytes. The signature triple is then wrapped with the call in the extrinsic
envelope: a version byte (0x84 when signed, 0x04 when not), the triple, the call,
and in front of it all the body's length as a SCALE `Compact<u32>`. The call
is either a structured tuple the manager encodes itself or a pre-encoded blob,
such as the XCM transfers, that it passes through verbatim.

The model is a set of pure functions over byte sequences:

- `wrappers.dfy`, `bytes.dfy`: `Option`, machine-integer newtypes, little-endian
  integers and fixed-width fields with their decoders.
- `compact.dfy`: the SCALE compact-integer codec, written from the SCALE Codec
  appendix of the Polkadot Protocol Specification. Its decoder accepts only
  canonical encodings. Encoding and decoding are proved inverse in both
  directions.
- `runtime.dfy`: the encodings of the runtime types the manager uses
  (`Era::Immortal`, `MultiAddress::Id`, `MultiSignature::Sr25519`).
- `extensions.dfy`: `PotVote`, `Extra` and `Additional`, their encodings, and the
  builders `create_extra` and `create_additional`.
- `calls.dfy`: structured call tuples and their encoding.
- `signing.dfy`: `Signature::new` and `SignatureXcm::new_encoded_data`. blake2-256
  and sr25519 enter as the function parameters `hash` and `sign`. A `sign` value
  stands for one draw of the randomised signer.
- `extrinsic.dfy`: `encode_extrinsic` and `encode_extrinsic_encoded_data`, plus an
  envelope decoder against which both are proved.
- `scenarios.dfy`: the balance transfer built by `send_extrinsic`, and the two
  XCM blobs of `src/bin/08_xcm.rs`.

Every encoder that produces transmitted bytes has a decoder. Each such pair
has two lemmas: a round trip (`Decode(Encode(x) + rest) == Some((x, rest))`) and
a canonical lemma (anything the decoder accepts is `Encode` of what it returns,
followed by the rest). A call's bytes do not say what types its arguments have.
So the call decoder is given the argument kinds, as the runtime's metadata
would give them, and its round trip is stated for a call's own kinds.

The signing threshold is strict, as the code writes it: `len > 256` hashes, so a
payload of exactly 256 bytes is signed raw.

## Model

| member | source | states |
|---|---|---|
| Compact.Encode | src/utils/tx_manager.rs:385-387 | a compact integer takes 1, 2 or 4 bytes below 2^6, 2^14 and 2^30 respectively, and otherwise one header byte plus the value's minimal little-endian byte count |
| Compact.LemmaEncodeMode | src/utils/tx_manager.rs:385-387 | the two low bits of the first encoded byte name the mode that the value's magnitude selects |
| Compact.LemmaBigModeLength | src/utils/tx_manager.rs:385-387 | a value in big-integer mode needs between 4 and 67 bytes, so its byte count fits the six-bit header |
| Compact.LemmaDecodeEncode | src/utils/tx_manager.rs:385-387 | decoding an encoded compact integer followed by any bytes returns the integer and exactly those bytes |
| Compact.LemmaDecodeCanonical | src/utils/tx_manager.rs:385-387 | every input the decoder accepts is the encoding of the value it returns followed by the remainder, so no value has two accepted encodings |
| Compact.EncodeCompactU32 | src/utils/tx_manager.rs:328 | a `Compact<u32>` takes between 1 and 5 bytes |
| Compact.EncodeCompactU128 | src/utils/tx_manager.rs:39-40 | a `Compact<u128>` takes between 1 and 17 bytes |
| Compact.LemmaCompactU32RoundTrip | src/utils/tx_manager.rs:328 | every 32-bit value survives compact encoding and decoding, and the bytes after it are untouched |
| Compact.LemmaCompactU32Canonical | src/utils/tx_manager.rs:385-387 | every accepted `Compact<u32>` input is the encoding of the decoded value followed by the rest |
| Compact.LemmaCompactU128RoundTrip | src/utils/tx_manager.rs:39-40 | every 128-bit value survives compact encoding and decoding, and the bytes after it are untouched |
| Compact.LemmaCompactU128Canonical | src/utils/tx_manager.rs:39-40 | every accepted `Compact<u128>` input is the encoding of the decoded value followed by the rest |
| Bytes.LemmaDecodeU32RoundTrip | src/utils/tx_manager.rs:342-345 | a `u32` field is four little-endian bytes that decode back to the value |
| Bytes.LemmaDecodeU32Canonical | src/utils/tx_manager.rs:41 | any four bytes decode to the `u32` whose encoding they are |
| Bytes.LemmaFromLittleEndianOfLittleEndian | src/utils/tx_manager.rs:385-387 | reading back a value written little-endian in `k` bytes gives the value |
| Bytes.LemmaLittleEndianOfFromLittleEndian | src/utils/tx_manager.rs:385-387 | writing back a little-endian reading in the same width gives the original bytes |
| Bytes.ByteLength | src/utils/tx_manager.rs:385-387 | the least byte count that holds a value: the value fits in it, and in no fewer bytes |
| Runtime.LemmaEraRoundTrip | src/utils/tx_manager.rs:327 | the immortal era is one byte that decodes back to it |
| Runtime.LemmaEraCanonical | src/utils/tx_manager.rs:327 | any accepted era byte is the encoding of the decoded era |
| Runtime.LemmaMultiAddressRoundTrip | src/utils/tx_manager.rs:165 | `MultiAddress::Id` is a tag byte plus the 32-byte account, and decodes back |
| Runtime.LemmaMultiAddressCanonical | src/utils/tx_manager.rs:165 | any accepted address is the encoding of the decoded address followed by the rest |
| Runtime.LemmaMultiSignatureRoundTrip | src/utils/tx_manager.rs:166 | `MultiSignature::Sr25519` is a tag byte plus the 64-byte signature, and decodes back |
| Runtime.LemmaMultiSignatureCanonical | src/utils/tx_manager.rs:166 | any accepted signature is the encoding of the decoded signature followed by the rest |
| Extensions.LemmaOptionU32RoundTrip | src/utils/tx_manager.rs:41 | `Option<u32>` is 0x00, or 0x01 plus the value, and decodes back |
| Extensions.LemmaOptionU32Canonical | src/utils/tx_manager.rs:41 | any accepted `Option<u32>` is the encoding of the decoded option followed by the rest |
| Extensions.LemmaOptionAccountRoundTrip | src/utils/tx_manager.rs:42-43 | `Option<AccountId>` is 0x00, or 0x01 plus the 32-byte account, and decodes back |
| Extensions.LemmaOptionAccountCanonical | src/utils/tx_manager.rs:42-43 | any accepted `Option<AccountId>` is the encoding of the decoded option followed by the rest |
| Extensions.LemmaPotVoteRoundTrip | src/utils/tx_manager.rs:37-44 | `PotVote` encodes as the compact tip, then asset id, fee payer and vote candidate in declaration order, and decodes back to the same four fields |
| Extensions.LemmaPotVoteCanonical | src/utils/tx_manager.rs:37-44 | any accepted `PotVote` encoding is the encoding of the decoded value followed by the rest |
| Extensions.LemmaExtraRoundTrip | src/utils/tx_manager.rs:325 | the `(Era, Compact<u32>, PotVote)` tuple decodes back from its encoding |
| Extensions.LemmaExtraCanonical | src/utils/tx_manager.rs:325 | any accepted `Extra` encoding is the encoding of the decoded tuple followed by the rest |
| Extensions.EncodeAdditional | src/utils/tx_manager.rs:342 | the `(u32, u32, H256, H256)` tuple always takes 72 bytes |
| Extensions.CreateExtra | src/utils/tx_manager.rs:321-336 | the era is immortal, the nonce is the caller's, and the vote has tip 0, asset 99, no fee payer and the caller as candidate; the encoding is 0x00, the compact nonce, 0x00, 0x01 followed by 99 as four little-endian bytes, 0x00, then 0x01 and the caller, so 41 bytes plus the compact nonce |
| Extensions.CreateAdditional | src/utils/tx_manager.rs:338-349 | the spec and transaction versions are copied, and the genesis hash fills both field 3 and field 4, so the two 32-byte halves of the encoding's tail are equal |
| Calls.LemmaCallRoundTrip | src/utils/tx_manager.rs:153 | a call tuple is the pallet index, the call index and its arguments in order; told the arguments' kinds, the decoder gives back the call and leaves the following bytes untouched |
| Calls.LemmaCallCanonical | src/utils/tx_manager.rs:153 | every input the call decoder accepts for some argument kinds is the encoding of a call with exactly those kinds, followed by the rest |
| Calls.LemmaEncodeCallInjective | src/utils/tx_manager.rs:153 | two calls with the same argument kinds and the same bytes are the same call |
| Calls.LemmaArgsRoundTrip | src/utils/tx_manager.rs:153 | an argument list decodes back from its concatenated encodings when the decoder is told the list's kinds |
| Calls.LemmaArgsCanonical | src/utils/tx_manager.rs:153 | every argument list the decoder accepts has the requested kinds, and the input is its encoding followed by the rest |
| Calls.LemmaEncodeArgsAppend | src/utils/tx_manager.rs:153 | tuple encoding is concatenation: the encoding of a joined argument list is the two encodings joined |
| Signing.SigningMessage | src/utils/tx_manager.rs:82-86 | the signer gets the payload itself exactly when it is at most 256 bytes, and otherwise the payload's 32-byte hash; a 256-byte payload is signed raw |
| Signing.BlobPayload | src/utils/tx_manager.rs:102-104 | the blob payload is the blob unchanged, then the encoded `Extra`, then the 72-byte `Additional` |
| Signing.SignatureNew | src/utils/tx_manager.rs:73-88 | the signature is over the concatenated `(call, extra, additional)` bytes when they are at most 256 bytes, and over their hash otherwise |
| Signing.SignatureXcmNewEncodedData | src/utils/tx_manager.rs:95-112 | the signature is over the blob extended with `(extra, additional)` when that is at most 256 bytes, and over its hash otherwise |
| Signing.LemmaStructuredAndBlobSignSameMessage | src/utils/tx_manager.rs:73-112 | a structured call and its pre-encoded bytes produce the same payload, and therefore the same signature |
| Signing.LemmaBlobThreshold | src/utils/tx_manager.rs:102-110 | with the builders' tuples, a blob payload is the blob plus 113 bytes plus the compact nonce, and it is signed raw exactly when that is at most 256 bytes |
| Extrinsic.LemmaSignaturePayloadRoundTrip | src/utils/tx_manager.rs:164-168 | the `(address, signature, extra)` triple decodes back from its encoding |
| Extrinsic.LemmaSignaturePayloadCanonical | src/utils/tx_manager.rs:164-168 | any accepted triple encoding is the encoding of the decoded triple followed by the rest |
| Extrinsic.VersionByte | src/utils/tx_manager.rs:374-383 | the version byte is 0x84 when signed and 0x04 when not; its high bit is set exactly when signed, and its low seven bits are always version 4 |
| Extrinsic.LengthPrefixed | src/utils/tx_manager.rs:385-388 | the output ends with the body, verbatim, after a non-empty prefix |
| Extrinsic.EncodeExtrinsic | src/utils/tx_manager.rs:371-391 | while the body is shorter than 2^32 bytes, the output's leading `Compact<u32>` decodes to the body's length, and what follows it is exactly the body |
| Extrinsic.EncodeExtrinsicEncodedData | src/utils/tx_manager.rs:393-414 | the call blob is a verbatim suffix of the output, and while the body is shorter than 2^32 bytes the length prefix decodes to exactly the bytes after it |
| Extrinsic.LemmaBodyEndsWithCall | src/utils/tx_manager.rs:407 | the call bytes are the last bytes of the body, after the version byte and any signature |
| Extrinsic.LemmaLengthPrefix | src/utils/tx_manager.rs:385-388 | for a body under 2^32 bytes, the length prefix decodes to the body's length and leaves exactly the body |
| Extrinsic.LemmaLengthPrefixTruncates | src/utils/tx_manager.rs:385 | from 2^32 bytes on, `as u32` makes the prefix announce the length modulo 2^32, which differs from the body's real length |
| Extrinsic.LemmaEncodeExtrinsicIsEncodedData | src/utils/tx_manager.rs:371-414 | wrapping a structured call gives the same bytes as wrapping its encoding as a pre-encoded blob |
| Extrinsic.LemmaDecodeBody | src/utils/tx_manager.rs:375-384 | the body decoder recovers the optional signature triple and the call bytes |
| Extrinsic.LemmaDecodeBodyCanonical | src/utils/tx_manager.rs:375-384 | any body the decoder accepts is the body built from what it returns |
| Extrinsic.LemmaDecodeEncodeExtrinsic | src/utils/tx_manager.rs:393-414 | for a body under 2^32 bytes, decoding the envelope gives back the signature triple and the call blob verbatim |
| Extrinsic.LemmaDecodeExtrinsicCanonical | src/utils/tx_manager.rs:393-414 | any envelope the decoder accepts has a body under 2^32 bytes and is exactly the encoder's output for what it decodes to |
| Scenarios.LemmaAmountEncoding | src/utils/tx_manager.rs:151 | the transfer amount 123456789012345 takes seven bytes as a `Compact<u128>` |
| Scenarios.LemmaTransferScenario | src/utils/tx_manager.rs:148-172 | with nonce 0, both versions 1 and a zero genesis hash, the transfer to Bob has a 156-byte payload, which is signed raw; the extrinsic is 185 bytes, a two-byte prefix announcing the 183 bytes after it, and the first of those is 0x84 |
| Scenarios.LemmaXcmBlobsSignedRaw | src/bin/08_xcm.rs:11-26 | the two XCM blobs are 69 and 72 bytes, and for every nonce, caller, runtime version and genesis hash their payloads are signed raw |
| Scenarios.LemmaBlobBoundary | src/utils/tx_manager.rs:106-110 | with a nonce below 64, a 142-byte blob gives a 256-byte payload, which is signed raw, and a 143-byte blob gives a 257-byte payload, which is hashed |

## Left out

- JSON-RPC transport and async orchestration are not modelled: `request_basic`, `get_nonce`, `get_runtime_version`, `get_genesis_hash`, `submit_extrinsic`, and the `send_extrinsic`/`send_xcm` sequencing. They are I/O. Their results enter the model as parameters: nonce, runtime version and genesis hash.
- `get_end_points`, hex formatting of the payload, and the binaries are left out. They are configuration and presentation.
- `send_xcm2` is left out. Its source marks it as work in progress.
- `create_signature` and `create_signature_for_xcm` are one-line forwards to `Signature::new` and `SignatureXcm::new_encoded_data`. They have no separate members.
- `PotVote::new` is a plain field-by-field constructor. It is the `PotVote` datatype constructor.
- blake2-256 and sr25519 are not implemented. They are the parameters `hash` and `sign`, and the signer's randomness is not modelled.
- Foreign type layouts are taken as assumptions:
  - `Era::Immortal` is the byte 0x00.
  - `MultiAddress::Id` is 0x00 plus 32 bytes.
  - `MultiSignature::Sr25519` is 0x01 plus 64 bytes.
  - `AccountId32` and `H256` are 32 raw bytes.
- Only the variants the manager uses are modelled: mortal eras, other address kinds and other signature schemes are left out.
- Structured call arguments are limited to a compact `u128` and a `MultiAddress`, the two that `send_extrinsic` passes. The XCM types used by `send_xcm2` are left out.
- Only the two `RuntimeVersion` fields the builder reads are modelled.
- Compact.Encode: only values of up to 67 bytes are encodable, which is the big-integer mode's limit. All fixed-width integers the manager encodes are far below it.
- The compact codec follows the standard's canonical form. The `parity_scale_codec` crate itself is not part of this model.
- Extrinsic.EncodeExtrinsic: the length-prefix property is stated only for bodies under 2^32 bytes. Beyond that, `tmp.len() as u32` truncates, and `Extrinsic.LemmaLengthPrefixTruncates` states what the prefix then announces.
