/** HMAC (RFC 2104) and HKDF (RFC 5869) over SHA-256, as their standards
    define them. */
module KeyedHash {
  import opened Fips180

  /** Messages that still leave room for one 64-byte key block. */
  const MAX_KEYED: nat := TWO_61 - 64

  function Concat(parts: seq<seq<Byte>>): seq<Byte> {
    if |parts| == 0 then [] else parts[0] + Concat(parts[1..])
  }

  lemma {:induction false} ConcatPush(parts: seq<seq<Byte>>, n: nat)
    requires n < |parts|
    ensures Concat(parts[..n + 1]) == Concat(parts[..n]) + parts[n]
  {
    if n == 0 {
      assert parts[..1][1..] == [];
    } else {
      assert parts[..n + 1][1..] == parts[1..][..n];
      assert parts[..n][1..] == parts[1..][..n - 1];
      ConcatPush(parts[1..], n - 1);
    }
  }

  lemma {:induction false} ConcatSplit(parts: seq<seq<Byte>>, n: nat)
    requires n <= |parts|
    ensures Concat(parts) == Concat(parts[..n]) + Concat(parts[n..])
  {
    if n == 0 {
      assert parts[0..] == parts;
    } else {
      ConcatSplit(parts[1..], n - 1);
      assert parts[..n][1..] == parts[1..][..n - 1];
      assert parts[1..][n - 1..] == parts[n..];
    }
  }

  // ---------- Section 2 of RFC 2104 ----------

  function XorAll(bytes: seq<Byte>, mask: Byte): (r: seq<Byte>)
    ensures |r| == |bytes|
    ensures forall i :: 0 <= i < |bytes| ==> r[i] == bytes[i] ^ mask
  {
    seq(|bytes|, i requires 0 <= i < |bytes| => bytes[i] ^ mask)
  }

  /** The key made exactly one block long: hashed first when it is longer. */
  function KeyBlock(key: seq<Byte>): Block
    requires |key| < TWO_61
  {
    var k := if |key| > 64 then Sha256(key) else key;
    k + Zeros(64 - |k|)
  }

  /** The key, or its digest when it is longer than a block, from the first byte
      on; zeros after it. */
  lemma KeyBlockAt(key: seq<Byte>, i: nat)
    requires |key| < TWO_61 && i < 64
    ensures |key| <= 64 ==> KeyBlock(key)[i] == if i < |key| then key[i] else 0
    ensures |key| > 64 ==> KeyBlock(key)[i] == if i < 32 then Sha256(key)[i] else 0
  {
    hide Sha256;
  }

  function Hmac(key: seq<Byte>, text: seq<Byte>): Digest
    requires |key| < TWO_61 && |text| < MAX_KEYED
  {
    var k := KeyBlock(key);
    Sha256(XorAll(k, 0x5c) + Sha256(XorAll(k, 0x36) + text))
  }

  // ---------- Section 2 of RFC 5869 ----------

  function Extract(salt: seq<Byte>, ikm: seq<Byte>): Digest
    requires |salt| < TWO_61 && |ikm| < MAX_KEYED
  {
    Hmac(salt, ikm)
  }

  /** Block T(i) of the expansion; T(0) is empty. */
  function ExpandBlock(prk: Digest, info: seq<Byte>, i: nat): (r: seq<Byte>)
    requires i <= 255 && |info| + 33 < MAX_KEYED
    ensures |r| <= 32 && (i > 0 ==> |r| == 32)
  {
    if i == 0 then [] else Hmac(prk, ExpandBlock(prk, info, i - 1) + info + [i as Byte])
  }

  function ExpandBlocks(prk: Digest, info: seq<Byte>, n: nat): (r: seq<Byte>)
    requires n <= 255 && |info| + 33 < MAX_KEYED
    ensures |r| == 32 * n
  {
    if n == 0 then [] else ExpandBlocks(prk, info, n - 1) + ExpandBlock(prk, info, n)
  }

  /** The first `length` bytes of T(1) | T(2) | ... */
  function Expand(prk: Digest, info: seq<Byte>, length: nat): (r: seq<Byte>)
    requires length <= 255 * 32 && |info| + 33 < MAX_KEYED
    ensures |r| == length
  {
    ExpandBlocks(prk, info, (length + 31) / 32)[..length]
  }

  function Hkdf(salt: seq<Byte>, ikm: seq<Byte>, info: seq<Byte>, length: nat): seq<Byte>
    requires |salt| < TWO_61 && |ikm| < MAX_KEYED && |info| + 33 < MAX_KEYED && length <= 255 * 32
  {
    Expand(Extract(salt, ikm), info, length)
  }

  /** For 32 bytes the expansion is a single HMAC of info and the byte 1. */
  lemma ExpandOneBlock(prk: Digest, info: seq<Byte>)
    requires |info| + 33 < MAX_KEYED
    ensures Expand(prk, info, 32) == Hmac(prk, info + [1])
  {
    hide Hmac;
    assert ExpandBlock(prk, info, 0) + info + [1 as Byte] == info + [1];
    assert ExpandBlocks(prk, info, 1) == ExpandBlock(prk, info, 1);
  }
}
