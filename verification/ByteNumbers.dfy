/** Bytes as bit vectors and as numbers. */
module ByteNumbers {
  lemma NextByte(b: bv8)
    requires b != 0xff
    ensures (b + 1) as nat == b as nat + 1
  {
  }

  /** The byte with value `v`. */
  function FromNat(v: nat): (b: bv8)
    requires v < 256
    ensures b as nat == v
  {
    if v == 0 then 0
    else
      var before := FromNat(v - 1);
      NextByte(before);
      before + 1
  }

  /** The bytes spell the text, in ASCII. */
  predicate IsAscii(bytes: seq<bv8>, text: string) {
    |bytes| == |text| && forall i :: 0 <= i < |bytes| ==> bytes[i] as int == text[i] as int < 128
  }

  lemma AsciiJoins(a: seq<bv8>, b: seq<bv8>, s: string, t: string)
    requires IsAscii(a, s) && IsAscii(b, t)
    ensures IsAscii(a + b, s + t)
  {
  }

  lemma SameByte(a: bv8, b: bv8)
    requires a as nat == b as nat
    ensures a == b
  {
  }

  /** Setting bit 6 of a small byte adds 64. */
  lemma SetBitSix(b: bv8)
    requires b as nat < 64
    ensures (0x40 | b) as nat == 64 + b as nat
  {
  }

  // ---------- Numbers of several bytes ----------

  function ToNat(b: bv8): (v: nat)
    ensures v < 256
  {
    b as nat
  }

  function ToByte(v: nat): (b: bv8)
    requires v < 256
    ensures ToNat(b) == v
  {
    FromNat(v)
  }

  lemma ToByteIs(v: nat, b: bv8)
    requires v < 256 && ToNat(b) == v
    ensures ToByte(v) == b
  {
    SameByte(ToByte(v), b);
  }

  /** The `n` low bytes of a number, most significant first. */
  function BigEndian(value: nat, n: nat): (r: seq<bv8>)
    ensures |r| == n
  {
    if n == 0 then [] else BigEndian(value / 256, n - 1) + [ToByte(value % 256)]
  }

  function FromBigEndian(bytes: seq<bv8>): nat {
    if |bytes| == 0 then 0
    else 256 * FromBigEndian(bytes[..|bytes| - 1]) + ToNat(bytes[|bytes| - 1])
  }

  function Pow256(n: nat): nat {
    if n == 0 then 1 else 256 * Pow256(n - 1)
  }

  lemma {:induction false} BigEndianRoundTrip(value: nat, n: nat)
    requires value < Pow256(n)
    ensures FromBigEndian(BigEndian(value, n)) == value
  {
    hide ToByte, ToNat;
    if n > 0 {
      assert value / 256 < Pow256(n - 1);
      BigEndianRoundTrip(value / 256, n - 1);
      var b := BigEndian(value, n);
      assert b[..n - 1] == BigEndian(value / 256, n - 1);
      assert ToNat(b[n - 1]) == value % 256;
    }
  }

  lemma {:induction false} FromBigEndianBound(bytes: seq<bv8>)
    ensures FromBigEndian(bytes) < Pow256(|bytes|)
  {
    hide ToByte, ToNat;
    if |bytes| > 0 {
      FromBigEndianBound(bytes[..|bytes| - 1]);
    }
  }
}
