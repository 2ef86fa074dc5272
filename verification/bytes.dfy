/**
 Fixed-width unsigned integers and little-endian byte strings, the base layer
 of the SCALE encoding: a fixed-width integer is written as its bytes, least
 significant first, and a fixed-size byte array is written verbatim.
 */
module Bytes {
  import opened Wrappers

  newtype u8 = x: int | 0 <= x < 0x100
  newtype u32 = x: int | 0 <= x < 0x1_0000_0000
  newtype u128 = x: int | 0 <= x < 0x1_0000_0000_0000_0000_0000_0000_0000_0000

  /** `[u8; 32]`: an `AccountId32` or an `H256`. */
  type Bytes32 = s: seq<u8> | |s| == 32 witness seq(32, _ => 0)

  /** `[u8; 64]`: an sr25519 signature. */
  type Bytes64 = s: seq<u8> | |s| == 64 witness seq(64, _ => 0)

  function Pow256(k: nat): (r: nat)
    ensures r > 0
  {
    if k == 0 then 1 else 256 * Pow256(k - 1)
  }

  lemma {:induction false} LemmaPow256Monotone(a: nat, b: nat)
    requires a <= b
    ensures Pow256(a) <= Pow256(b)
    decreases b - a
  {
    if a < b {
      LemmaPow256Monotone(a, b - 1);
    }
  }

  /** The `k`-byte little-endian representation of `n`. */
  function LittleEndian(n: nat, k: nat): (r: seq<u8>)
    requires n < Pow256(k)
    ensures |r| == k
  {
    if k == 0 then []
    else
      assert n / 256 < Pow256(k - 1);
      [(n % 256) as u8] + LittleEndian(n / 256, k - 1)
  }

  /** The number denoted by a little-endian byte string. */
  function FromLittleEndian(s: seq<u8>): (n: nat)
    ensures n < Pow256(|s|)
  {
    if |s| == 0 then 0
    else
      var rest := FromLittleEndian(s[1..]);
      assert s[0] as nat + 256 * rest < 256 * (rest + 1) <= 256 * Pow256(|s| - 1);
      s[0] as nat + 256 * rest
  }

  lemma {:induction false} LemmaFromLittleEndianOfLittleEndian(n: nat, k: nat)
    requires n < Pow256(k)
    ensures FromLittleEndian(LittleEndian(n, k)) == n
  {
    if k > 0 {
      var s := LittleEndian(n, k);
      assert s[1..] == LittleEndian(n / 256, k - 1);
      LemmaFromLittleEndianOfLittleEndian(n / 256, k - 1);
    }
  }

  lemma {:induction false} LemmaLittleEndianOfFromLittleEndian(s: seq<u8>)
    ensures LittleEndian(FromLittleEndian(s), |s|) == s
  {
    if |s| > 0 {
      var n := FromLittleEndian(s);
      assert n % 256 == s[0] as nat;
      assert n / 256 == FromLittleEndian(s[1..]);
      LemmaLittleEndianOfFromLittleEndian(s[1..]);
    }
  }

  /** The low two bits of a little-endian number are those of its first byte. */
  lemma LemmaFromLittleEndianLowBits(s: seq<u8>)
    requires |s| > 0
    ensures FromLittleEndian(s) % 4 == s[0] as nat % 4
  {
    var rest := FromLittleEndian(s[1..]);
    assert FromLittleEndian(s) == s[0] as nat + 4 * (64 * rest);
  }

  /** The low two bits of a number are those of its low byte. */
  lemma LemmaLowBitsOfLowByte(v: nat)
    ensures (v % 256) % 4 == v % 4
  {
    assert v == 4 * (64 * (v / 256)) + v % 256;
  }

  /** The first byte of a little-endian representation is the number modulo 256. */
  lemma LemmaLittleEndianFirstByte(n: nat, k: nat)
    requires 0 < k && n < Pow256(k)
    ensures LittleEndian(n, k)[0] as nat == n % 256
  {
  }

  /** A number that needs all `k` bytes has a non-zero most significant byte. */
  lemma {:induction false} LemmaLittleEndianTopByte(n: nat, k: nat)
    requires 0 < k && Pow256(k - 1) <= n < Pow256(k)
    ensures LittleEndian(n, k)[k - 1] != 0
  {
    if k > 1 {
      var s := LittleEndian(n, k);
      assert s[1..] == LittleEndian(n / 256, k - 1);
      assert Pow256(k - 2) <= n / 256;
      LemmaLittleEndianTopByte(n / 256, k - 1);
    }
  }

  /** Conversely, a byte string whose last byte is non-zero denotes a number that needs all its bytes. */
  lemma {:induction false} LemmaFromLittleEndianTopByte(s: seq<u8>)
    requires 0 < |s| && s[|s| - 1] != 0
    ensures Pow256(|s| - 1) <= FromLittleEndian(s)
  {
    if |s| > 1 {
      assert s[1..][|s| - 2] == s[|s| - 1];
      LemmaFromLittleEndianTopByte(s[1..]);
    }
  }

  /** The least number of bytes that represents `n`. */
  function ByteLength(n: nat): (k: nat)
    ensures n < Pow256(k)
    ensures n > 0 ==> 0 < k && Pow256(k - 1) <= n
    ensures n == 0 <==> k == 0
  {
    if n == 0 then 0 else 1 + ByteLength(n / 256)
  }

  /** `ByteLength` is the unique `k` with `256^(k-1) <= n < 256^k`. */
  lemma LemmaByteLengthUnique(n: nat, k: nat)
    requires 0 < k && Pow256(k - 1) <= n < Pow256(k)
    ensures ByteLength(n) == k
  {
    var b := ByteLength(n);
    if b < k {
      LemmaPow256Monotone(b, k - 1);
    } else if b > k {
      LemmaPow256Monotone(k, b - 1);
    }
  }

  lemma LemmaByteLengthBelow(n: nat, k: nat)
    requires n < Pow256(k)
    ensures ByteLength(n) <= k
  {
  }

  // ---- u32: four little-endian bytes ----

  lemma LemmaPow256Four()
    ensures Pow256(4) == 0x1_0000_0000
  {
  }

  lemma {:induction false} LemmaPow256Add(a: nat, b: nat)
    ensures Pow256(a + b) == Pow256(a) * Pow256(b)
  {
    if a > 0 {
      LemmaPow256Add(a - 1, b);
    }
  }

  lemma LemmaPow256Sixteen()
    ensures Pow256(16) == 0x1_0000_0000_0000_0000_0000_0000_0000_0000
  {
    LemmaPow256Four();
    LemmaPow256Add(4, 4);
    LemmaPow256Add(8, 8);
  }

  function EncodeU32(x: u32): (r: seq<u8>)
    ensures |r| == 4
  {
    LemmaPow256Four();
    LittleEndian(x as nat, 4)
  }

  function DecodeU32(s: seq<u8>): (r: Option<(u32, seq<u8>)>)
    ensures r.Some? <==> |s| >= 4
    ensures r.Some? ==> r.value.1 == s[4..]
  {
    if |s| < 4 then None
    else
      LemmaPow256Four();
      Some((FromLittleEndian(s[..4]) as u32, s[4..]))
  }

  lemma LemmaDecodeU32RoundTrip(x: u32, rest: seq<u8>)
    ensures DecodeU32(EncodeU32(x) + rest) == Some((x, rest))
  {
    var e := EncodeU32(x);
    assert (e + rest)[..4] == e;
    LemmaPow256Four();
    LemmaFromLittleEndianOfLittleEndian(x as nat, 4);
  }

  lemma LemmaDecodeU32Canonical(s: seq<u8>)
    requires DecodeU32(s).Some?
    ensures s == EncodeU32(DecodeU32(s).value.0) + DecodeU32(s).value.1
  {
    LemmaLittleEndianOfFromLittleEndian(s[..4]);
    assert s == s[..4] + s[4..];
  }

  // ---- [u8; N]: copied verbatim ----

  function DecodeBytes32(s: seq<u8>): (r: Option<(Bytes32, seq<u8>)>)
    ensures r.Some? <==> |s| >= 32
    ensures r.Some? ==> s == r.value.0 + r.value.1
  {
    if |s| < 32 then None else Some((s[..32], s[32..]))
  }

  function DecodeBytes64(s: seq<u8>): (r: Option<(Bytes64, seq<u8>)>)
    ensures r.Some? <==> |s| >= 64
    ensures r.Some? ==> s == r.value.0 + r.value.1
  {
    if |s| < 64 then None else Some((s[..64], s[64..]))
  }

  // ---- Chains of prefix parses ----

  /** Three fields parsed one after another leave the input as their concatenation. */
  lemma LemmaChain3(s: seq<u8>, a: seq<u8>, s1: seq<u8>, b: seq<u8>, s2: seq<u8>, c: seq<u8>, s3: seq<u8>)
    requires s == a + s1 && s1 == b + s2 && s2 == c + s3
    ensures s == a + b + c + s3
  {
  }

  /** Four fields parsed one after another leave the input as their concatenation. */
  lemma LemmaChain4(s: seq<u8>, a: seq<u8>, s1: seq<u8>, b: seq<u8>, s2: seq<u8>, c: seq<u8>, s3: seq<u8>,
                    d: seq<u8>, s4: seq<u8>)
    requires s == a + s1 && s1 == b + s2 && s2 == c + s3 && s3 == d + s4
    ensures s == a + b + c + d + s4
  {
    LemmaChain3(s1, b, s2, c, s3, d, s4);
  }

  /** Two fields followed by the rest, regrouped as the parser reads them. */
  lemma LemmaRegroup2(a: seq<u8>, b: seq<u8>, rest: seq<u8>)
    ensures a + b + rest == a + (b + rest)
  {
  }

  /** Three fields followed by the rest, regrouped as the parser reads them. */
  lemma LemmaRegroup3(a: seq<u8>, b: seq<u8>, c: seq<u8>, rest: seq<u8>)
    ensures a + b + c + rest == a + (b + (c + rest))
  {
  }

  /** Four fields followed by the rest, regrouped as the parser reads them. */
  lemma LemmaRegroup4(a: seq<u8>, b: seq<u8>, c: seq<u8>, d: seq<u8>, rest: seq<u8>)
    ensures a + b + c + d + rest == a + (b + (c + (d + rest)))
  {
  }
}
