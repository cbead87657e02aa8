/** Message counters, initialization vectors and the two directions of a
    session's channel (src/definitions/session.rs). */
module SessionChannel {
  import opened Fips180
  import opened DigestTypes
  import ByteNumbers

  const MAX_U32: nat := 0xffff_ffff
  type U32 = n: nat | n <= MAX_U32

  type Key = seq<Byte>
  type Iv = seq<Byte>

  /** Ideal authenticated encryption: a ciphertext either was sealed under some
      key and vector, or is other bytes that open under none. */
  datatype Ciphertext = Sealed(key: Key, iv: Iv, plaintext: seq<Byte>) | Other(bytes: seq<Byte>)

  function Open(key: Key, iv: Iv, c: Ciphertext): Option<seq<Byte>> {
    if c.Sealed? && c.key == key && c.iv == iv then Some(c.plaintext) else None
  }

  // ---------- Initialization vectors ----------

  /** Section 9.1.1.5 of ISO/IEC 18013-5: eight identifier bytes that tell the
      sender, then the counter. */
  function InitializationVector(count: U32, reader: bool): (iv: Iv)
    ensures |iv| == 12
  {
    [0, 0, 0, 0, 0, 0, 0, if reader then 0 else 1] + ByteNumbers.BigEndian(count, 4)
  }

  /** Identifier 0 for the reader and 1 for the device, then the counter, both
      most significant byte first. */
  lemma {:induction false} VectorLayout(count: U32, reader: bool)
    ensures var iv := InitializationVector(count, reader);
      && ByteNumbers.FromBigEndian(iv[..8]) == (if reader then 0 else 1)
      && ByteNumbers.FromBigEndian(iv[8..]) == count
  {
    hide ByteNumbers.BigEndian;
    var iv := InitializationVector(count, reader);
    FourBytes();
    ByteNumbers.BigEndianRoundTrip(count, 4);
    assert iv[8..] == ByteNumbers.BigEndian(count, 4);
    var last: Fips180.Byte := if reader then 0 else 1;
    assert iv[..8] == Zeros(7) + [last];
    ZerosAreZero(7);
    assert (Zeros(7) + [last])[..7] == Zeros(7);
  }

  lemma FourBytes()
    ensures ByteNumbers.Pow256(4) == 0x1_0000_0000 == MAX_U32 + 1
  {
    assert ByteNumbers.Pow256(2) == 0x1_0000;
  }

  lemma {:induction false} ZerosAreZero(n: nat)
    ensures ByteNumbers.FromBigEndian(Zeros(n)) == 0
  {
    if n > 0 {
      ZerosAreZero(n - 1);
      assert Zeros(n)[..n - 1] == Zeros(n - 1);
    }
  }

  /** A vector tells its sender and its counter. */
  lemma {:induction false} VectorsAreInjective(m: U32, r: bool, n: U32, q: bool)
    ensures InitializationVector(m, r) == InitializationVector(n, q) ==> m == n && r == q
  {
    hide ByteNumbers.BigEndian;
    var a, b := InitializationVector(m, r), InitializationVector(n, q);
    assert a[7] == (if r then 0 else 1) && b[7] == (if q then 0 else 1);
    assert a[8..] == ByteNumbers.BigEndian(m, 4) && b[8..] == ByteNumbers.BigEndian(n, 4);
    FourBytes();
    ByteNumbers.BigEndianRoundTrip(m, 4);
    ByteNumbers.BigEndianRoundTrip(n, 4);
  }

  // ---------- One call, as a function of the counter ----------

  function SealStep(key: Key, plaintext: seq<Byte>, count: U32, reader: bool, backendFails: bool)
    : (Option<Ciphertext>, U32)
  {
    if count == MAX_U32 || backendFails then (None, count)
    else (Some(Sealed(key, InitializationVector(count + 1, reader), plaintext)), count + 1)
  }

  function OpenStep(key: Key, c: Ciphertext, count: U32, reader: bool, backendFails: bool): (Option<seq<Byte>>, U32) {
    if count == MAX_U32 || backendFails then (None, count)
    else
      var plaintext := Open(key, InitializationVector(count + 1, reader), c);
      (plaintext, if plaintext.Some? then count + 1 else count)
  }

  /** One side's keys and counters, with what sealing and opening do to them. */
  datatype Endpoint = Endpoint(skReader: Key, skDevice: Key, readerCount: U32, deviceCount: U32) {
    function SealAsReader(plaintext: seq<Byte>, backendFails: bool): (Option<Ciphertext>, Endpoint) {
      var (c, count) := SealStep(skReader, plaintext, readerCount, true, backendFails);
      (c, this.(readerCount := count))
    }

    function SealAsDevice(plaintext: seq<Byte>, backendFails: bool): (Option<Ciphertext>, Endpoint) {
      var (c, count) := SealStep(skDevice, plaintext, deviceCount, false, backendFails);
      (c, this.(deviceCount := count))
    }

    function OpenAsDevice(c: Ciphertext, backendFails: bool): (Option<seq<Byte>>, Endpoint) {
      var (plaintext, count) := OpenStep(skReader, c, readerCount, true, backendFails);
      (plaintext, this.(readerCount := count))
    }

    function OpenAsReader(c: Ciphertext, backendFails: bool): (Option<seq<Byte>>, Endpoint) {
      var (plaintext, count) := OpenStep(skDevice, c, deviceCount, false, backendFails);
      (plaintext, this.(deviceCount := count))
    }
  }

  // ---------- One call, as the source runs it ----------

  class MessageCounter {
    var count: U32

    constructor ()
      ensures count == 0
    {
      count := 0;
    }

    method GetInitializationVector(reader: bool) returns (iv: Option<Iv>)
      modifies this
      ensures old(count) == 0xffff_ffff ==> iv == None && count == old(count)
      ensures old(count) < 0xffff_ffff ==> count == old(count) + 1 && iv == Some(InitializationVector(count, reader))
    {
      if count == MAX_U32 {
        return None;
      }
      count := count + 1;
      var identifier := [0, 0, 0, 0, 0, 0, 0, if reader then 0 else 1];
      iv := Some(identifier + ByteNumbers.BigEndian(count, 4));
    }

    method Encrypt(key: Key, plaintext: seq<Byte>, reader: bool, backendFails: bool) returns (r: Option<Ciphertext>)
      modifies this
      ensures (r, count) == SealStep(key, plaintext, old(count), reader, backendFails)
    {
      hide InitializationVector;
      var previousCount := count;
      var iv := GetInitializationVector(reader);
      if iv.None? {
        return None;
      }
      if backendFails {
        count := previousCount;
        return None;
      }
      r := Some(Sealed(key, iv.value, plaintext));
    }

    method Decrypt(key: Key, c: Ciphertext, reader: bool, backendFails: bool) returns (r: Option<seq<Byte>>)
      modifies this
      ensures (r, count) == OpenStep(key, c, old(count), reader, backendFails)
    {
      hide InitializationVector;
      var previousCount := count;
      var iv := GetInitializationVector(reader);
      if iv.None? {
        return None;
      }
      r := if backendFails then None else Open(key, iv.value, c);
      if r.None? {
        count := previousCount;
      }
    }
  }
}
