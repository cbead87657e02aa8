/** Streaming SHA-256 and the HMAC and HKDF built on it
    (src/definitions/session_crypto.rs). */
module SessionCrypto {
  import opened Fips180
  import opened KeyedHash
  import ByteNumbers

  const SHA256_INITIAL_STATE: seq<Word> := [
    0x6a09e667, 0xbb67ae85, 0x3c6ef372, 0xa54ff53a, 0x510e527f, 0x9b05688c, 0x1f83d9ab, 0x5be0cd19
  ]

  const ZERO_STATE: State := [0, 0, 0, 0, 0, 0, 0, 0]

  /** Bytes of `m` in complete 64-byte blocks, and the rest. */
  function FullBlocks(m: seq<Byte>): (r: seq<Byte>)
    ensures |r| % 64 == 0
  {
    m[..|m| / 64 * 64]
  }

  function Tail(m: seq<Byte>): (r: seq<Byte>)
    ensures |r| == |m| % 64
  {
    m[|m| / 64 * 64..]
  }

  lemma NothingAbsorbed()
    ensures FullBlocks([]) == [] && Tail([]) == []
    ensures Fold(H0, []) == H0 && SHA256_INITIAL_STATE == H0
  {
    hide Compress;
  }

  /** Appending to a partial block either stays inside it or just fills it. */
  lemma AppendToTail(m: seq<Byte>, x: seq<Byte>)
    requires |Tail(m)| + |x| <= 64
    ensures m == FullBlocks(m) + Tail(m)
    ensures |Tail(m)| + |x| < 64 ==> FullBlocks(m + x) == FullBlocks(m) && Tail(m + x) == Tail(m) + x
    ensures |Tail(m)| + |x| == 64 ==> m + x == FullBlocks(m) + (Tail(m) + x)
  {
  }

  class SecureSha256 {
    var state: State
    const buffer: array<Byte>
    var bufferLen: nat
    var messageLen: nat
    /** Everything absorbed so far. */
    ghost var message: seq<Byte>

    /** The chaining value has absorbed the full blocks, the buffer holds the rest. */
    ghost predicate Absorbed()
      reads `state, `bufferLen, `message, buffer
    {
      && buffer.Length == BLOCK_BYTES
      && bufferLen == |message| % 64
      && buffer[..bufferLen] == Tail(message)
      && state == Fold(H0, FullBlocks(message))
    }

    ghost predicate Valid()
      reads this, buffer
    {
      Absorbed() && messageLen == |message| < TWO_64
    }

    constructor ()
      ensures Valid() && fresh(buffer) && message == []
    {
      hide Compress, Fold, FullBlocks, Tail;
      NothingAbsorbed();
      state := SHA256_INITIAL_STATE;
      buffer := new Byte[BLOCK_BYTES](_ => 0);
      bufferLen := 0;
      messageLen := 0;
      message := [];
    }

    /** `compress256` of the `sha2` crate is FIPS's compression function. */
    method CompressBuffer()
      requires buffer.Length == BLOCK_BYTES
      modifies this`state, this`bufferLen, buffer
      ensures state == Compress(old(state), old(buffer[..]))
      ensures bufferLen == 0 && buffer[..] == Zeros(64)
    {
      hide Compress;
      state := Compress(state, buffer[..]);
      FillZero(buffer, 0, BLOCK_BYTES);
      bufferLen := 0;
    }

    method Update(input: seq<Byte>)
      requires Valid()
      requires messageLen + |input| < TWO_64
      modifies this, buffer
      ensures Valid() && message == old(message) + input
    {
      hide Compress, Fold, Absorbed;
      messageLen := messageLen + |input|;
      var data := TopUp(input);
      data := AbsorbWholeBlocks(data);
      if |data| != 0 {
        Retain(data);
      }
    }

    /** First part of `Update`: complete a partly filled buffer. */
    method TopUp(data: seq<Byte>) returns (rest: seq<Byte>)
      requires Absorbed()
      modifies this`state, this`bufferLen, this`message, buffer
      ensures Absorbed() && message + rest == old(message) + data
      ensures bufferLen == 0 || |rest| == 0
    {
      hide Compress, Fold;
      rest := data;
      if bufferLen != 0 {
        ghost var m0 := message;
        var room := BLOCK_BYTES - bufferLen;
        var copied := if room < |data| then room else |data|;
        AppendToTail(m0, data[..copied]);
        CopyInto(buffer, bufferLen, data[..copied]);
        bufferLen := bufferLen + copied;
        message := message + data[..copied];
        rest := data[copied..];
        assert buffer[..bufferLen] == Tail(m0) + data[..copied];
        assert message + rest == m0 + data;
        if bufferLen == BLOCK_BYTES {
          AbsorbBlock(message, FullBlocks(m0), buffer[..]);
          CompressBuffer();
        }
      }
    }

    /** Second part of `Update`: whole blocks straight from the input. */
    method AbsorbWholeBlocks(input: seq<Byte>) returns (data: seq<Byte>)
      requires Absorbed() && (bufferLen == 0 || |input| == 0)
      modifies this`state, this`message
      ensures Absorbed() && message + data == old(message) + input
      ensures bufferLen == old(bufferLen) && |data| < BLOCK_BYTES && (bufferLen == 0 || |data| == 0)
    {
      hide Compress, Fold;
      data := input;
      while |data| >= BLOCK_BYTES
        invariant Absorbed() && (bufferLen == 0 || |data| == 0)
        invariant message + data == old(message) + input
      {
        ghost var m0 := message;
        assert FullBlocks(m0) == m0;
        var block := data[..BLOCK_BYTES];
        message := message + block;
        AbsorbBlock(message, m0, block);
        state := Compress(state, block);
        data := data[BLOCK_BYTES..];
      }
    }

    /** Last part of `Update`: keep the remaining bytes for later. */
    method Retain(data: seq<Byte>)
      requires Absorbed() && bufferLen == 0 && 0 < |data| < BLOCK_BYTES
      modifies this`bufferLen, this`message, buffer
      ensures Absorbed() && message == old(message) + data
    {
      hide Compress, Fold;
      assert FullBlocks(message + data) == FullBlocks(message) == message;
      CopyInto(buffer, 0, data);
      bufferLen := |data|;
      message := message + data;
    }

    method Finish() returns (digest: Digest)
      requires Valid()
      requires 8 * messageLen < TWO_64
      modifies this, buffer
      ensures digest == Sha256(old(message))
      ensures state == ZERO_STATE && buffer[..] == Zeros(64) && bufferLen == 0 && messageLen == 0
    {
      hide Compress, Fold, BigEndian64, WordBytes;
      var bitLen := 8 * messageLen;
      ghost var tail := Tail(message);
      ghost var last := FinalBlocks(tail, bitLen);
      FinalBlocksFold(message);
      buffer[bufferLen] := 0x80;
      bufferLen := bufferLen + 1;
      assert buffer[..bufferLen] == tail + [0x80];
      if bufferLen > 56 {
        FillZero(buffer, bufferLen, BLOCK_BYTES);
        assert buffer[..] == last[..64];
        FoldFirstBlock(state, last);
        CompressBuffer();
      }
      ghost var rest := last[|last| - 64..];
      assert buffer[..bufferLen] == rest[..bufferLen] && bufferLen <= 56;
      FillZero(buffer, bufferLen, 56);
      CopyInto(buffer, 56, BigEndian64(bitLen));
      bufferLen := BLOCK_BYTES;
      assert buffer[..56] == rest[..56];
      assert buffer[56..64] == rest[56..];
      assert buffer[..] == buffer[..56] + buffer[56..64] && rest == rest[..56] + rest[56..];
      FoldOneBlock(state, buffer[..]);
      CompressBuffer();

      digest := Serialise();
      Clear();
    }

    /** Last part of `Finish`: the state, most significant byte first. */
    method Serialise() returns (digest: Digest)
      ensures digest == StateBytes(state)
    {
      hide WordBytes;
      var out: seq<Byte> := [];
      for index := 0 to 8
        invariant out == WordsBytes(state, index)
      {
        out := out + WordBytes(state[index]);
      }
      digest := out;
    }

    method Clear()
      requires buffer.Length == BLOCK_BYTES
      modifies this, buffer
      ensures state == ZERO_STATE && buffer[..] == Zeros(64) && bufferLen == 0 && messageLen == 0
    {
      state := ZERO_STATE;
      FillZero(buffer, 0, BLOCK_BYTES);
      bufferLen := 0;
      messageLen := 0;
    }
  }

  method FillZero(a: array<Byte>, from: nat, to: nat)
    requires from <= to <= a.Length
    modifies a
    ensures forall k :: from <= k < to ==> a[k] == 0
    ensures forall k :: 0 <= k < from || to <= k < a.Length ==> a[k] == old(a[k])
  {
    for i := from to to
      invariant forall k :: from <= k < i ==> a[k] == 0
      invariant forall k :: 0 <= k < from || i <= k < a.Length ==> a[k] == old(a[k])
    {
      a[i] := 0;
    }
  }

  method CopyInto(a: array<Byte>, from: nat, source: seq<Byte>)
    requires from + |source| <= a.Length
    modifies a
    ensures a[from..from + |source|] == source
    ensures forall k :: 0 <= k < from || from + |source| <= k < a.Length ==> a[k] == old(a[k])
  {
    for i := 0 to |source|
      invariant forall k :: 0 <= k < i ==> a[from + k] == source[k]
      invariant forall k :: 0 <= k < from || from + i <= k < a.Length ==> a[k] == old(a[k])
    {
      a[from + i] := source[i];
    }
  }

  lemma {:induction false} FoldOneBlock(s: State, block: Block)
    ensures Fold(s, block) == Compress(s, block)
  {
    hide Compress;
    assert block[..64] == block && block[64..] == [];
    assert Fold(Compress(s, block), []) == Compress(s, block);
  }

  lemma {:induction false} FoldFirstBlock(s: State, data: seq<Byte>)
    requires |data| == 128
    ensures Fold(s, data) == Fold(Compress(s, data[..64]), data[64..])
  {
    hide Compress;
  }

  lemma {:induction false} AbsorbBlock(m: seq<Byte>, full: seq<Byte>, block: Block)
    requires |full| % 64 == 0 && m == full + block
    ensures FullBlocks(m) == m && Tail(m) == []
    ensures Fold(H0, m) == Compress(Fold(H0, full), block)
  {
    FoldAppend(H0, full, block);
    FoldOneBlock(Fold(H0, full), block);
    hide Fold, Compress;
  }

  /** What `Finish` feeds to the compression function after the full blocks. */
  function FinalBlocks(tail: seq<Byte>, bits: nat): (r: seq<Byte>)
    requires |tail| < 64 && bits < TWO_64
    ensures |r| == if |tail| < 56 then 64 else 128
  {
    PaddedWith(tail, bits)
  }

  /** The padded message is the full blocks, then what `Finish` feeds. */
  lemma PaddedSplits(m: seq<Byte>)
    requires |m| < TWO_61
    ensures Padded(m) == FullBlocks(m) + FinalBlocks(Tail(m), 8 * |m|)
  {
    hide BigEndian64, Zeros, ZeroCount;
    var full, tail := FullBlocks(m), Tail(m);
    assert m == full + tail;
    SameZeroCount(|m|);
    var zeros, length := Zeros(ZeroCount(|m|)), BigEndian64(8 * |m|);
    assert Padded(m) == (full + tail) + ([0x80] + zeros + length);
    assert FinalBlocks(tail, 8 * |m|) == tail + ([0x80] + zeros + length);
  }

  lemma SameZeroCount(len: nat)
    ensures ZeroCount(len) == ZeroCount(len % 64)
  {
  }

  lemma FinalBlocksFold(m: seq<Byte>)
    requires |m| < TWO_61
    ensures Fold(H0, Padded(m)) == Fold(Fold(H0, FullBlocks(m)), FinalBlocks(Tail(m), 8 * |m|))
  {
    hide Fold, Compress, FinalBlocks, FullBlocks, Padded, Tail;
    PaddedSplits(m);
    FoldAppend(H0, FullBlocks(m), FinalBlocks(Tail(m), 8 * |m|));
  }

  // ---------- HMAC ----------

  lemma {:induction false} ConcatBound(parts: seq<seq<Byte>>, n: nat)
    requires n <= |parts|
    ensures |Concat(parts[..n])| <= |Concat(parts)|
  {
    ConcatSplit(parts, n);
  }

  /** Absorb the parts of a message one after another. */
  method UpdateAll(hash: SecureSha256, parts: seq<seq<Byte>>)
    requires hash.Valid()
    requires hash.messageLen + |Concat(parts)| < TWO_64
    modifies hash, hash.buffer
    ensures hash.Valid() && hash.message == old(hash.message) + Concat(parts)
  {
    hide SecureSha256.Absorbed, TWO_64;
    ghost var m0 := hash.message;
    for n := 0 to |parts|
      invariant hash.Valid() && hash.message == m0 + Concat(parts[..n])
    {
      ConcatPush(parts, n);
      ConcatBound(parts, n + 1);
      hash.Update(parts[n]);
    }
    assert parts[..|parts|] == parts;
  }

  method XorInPlace(a: array<Byte>, mask: Byte)
    modifies a
    ensures a[..] == XorAll(old(a[..]), mask)
  {
    for i := 0 to a.Length
      invariant forall k :: 0 <= k < i ==> a[k] == old(a[k]) ^ mask
      invariant forall k :: i <= k < a.Length ==> a[k] == old(a[k])
    {
      a[i] := a[i] ^ mask;
    }
  }

  method LoadKey(key: seq<Byte>, keyBlock: array<Byte>)
    requires |key| < TWO_61 && keyBlock.Length == BLOCK_BYTES
    modifies keyBlock
    ensures keyBlock[..] == KeyBlock(key)
  {
    hide Sha256, SecureSha256.Absorbed;
    FillZero(keyBlock, 0, BLOCK_BYTES);
    if |key| > BLOCK_BYTES {
      var hash := new SecureSha256();
      hash.Update(key);
      assert hash.message == key;
      var hashedKey := hash.Finish();
      CopyInto(keyBlock, 0, hashedKey);
      assert keyBlock[0..32] == hashedKey;
    } else {
      CopyInto(keyBlock, 0, key);
    }
  }

  /** Turning the inner pad into the outer pad in place. */
  lemma PadSwitch(k: seq<Byte>)
    ensures XorAll(XorAll(k, 0x36), 0x36 ^ 0x5c) == XorAll(k, 0x5c)
  {
    forall i | 0 <= i < |k|
      ensures XorAll(XorAll(k, 0x36), 0x36 ^ 0x5c)[i] == XorAll(k, 0x5c)[i]
    {
      var b := k[i];
      assert (b ^ 0x36) ^ (0x36 ^ 0x5c) == b ^ 0x5c;
    }
  }

  /** A fresh hash over one block and then the parts of a message. */
  method HashAfterPad(pad: seq<Byte>, parts: seq<seq<Byte>>) returns (digest: Digest)
    requires |pad| == 64 && |Concat(parts)| < MAX_KEYED
    ensures digest == Sha256(pad + Concat(parts))
  {
    hide Sha256, SecureSha256.Absorbed;
    var hash := new SecureSha256();
    hash.Update(pad);
    assert hash.message == pad;
    UpdateAll(hash, parts);
    digest := hash.Finish();
  }

  method HmacSha256Into(key: seq<Byte>, messageParts: seq<seq<Byte>>, keyBlock: array<Byte>,
                        innerDigest: array<Byte>, output: array<Byte>)
    requires keyBlock.Length == BLOCK_BYTES && innerDigest.Length == 32 && output.Length == 32
    requires keyBlock != innerDigest && keyBlock != output && innerDigest != output
    requires |key| < TWO_61 && |Concat(messageParts)| < MAX_KEYED
    modifies keyBlock, innerDigest, output
    ensures output[..] == Hmac(key, Concat(messageParts))
         == Sha256(XorAll(KeyBlock(key), 0x5c) + Sha256(XorAll(KeyBlock(key), 0x36) + Concat(messageParts)))
    ensures keyBlock[..] == XorAll(KeyBlock(key), 0x5c)
    ensures innerDigest[..] == Sha256(XorAll(KeyBlock(key), 0x36) + Concat(messageParts))
  {
    hide Sha256, KeyBlock, XorAll, SecureSha256.Absorbed;
    FillZero(innerDigest, 0, 32);
    FillZero(output, 0, 32);
    LoadKey(key, keyBlock);
    ghost var k := KeyBlock(key);

    XorInPlace(keyBlock, 0x36);
    var inner := HashAfterPad(keyBlock[..], messageParts);
    CopyInto(innerDigest, 0, inner);
    assert innerDigest[..] == innerDigest[0..32] == inner;

    XorInPlace(keyBlock, 0x36 ^ 0x5c);
    PadSwitch(k);
    assert Concat([innerDigest[..]]) == innerDigest[..];
    var outer := HashAfterPad(keyBlock[..], [innerDigest[..]]);
    CopyInto(output, 0, outer);
    assert output[..] == output[0..32] == outer;
  }

  // ---------- Scratch space and guards ----------

  /** What a caller's callback does: return `Ok`, return `Err`, or panic. */
  datatype Callback = Succeeds | Fails | Panics

  /** How a guarded call ends; `Unwound` is a panic passing through its guards. */
  datatype Outcome = Ok | Err | Unwound

  function OutcomeOf(callback: Callback): Outcome {
    match callback
    case Succeeds => Ok
    case Fails => Err
    case Panics => Unwound
  }

  class HmacSha256Scratch {
    const keyBlock: array<Byte>
    const innerDigest: array<Byte>

    constructor ()
      ensures fresh(keyBlock) && fresh(innerDigest) && Shaped() && IsZero()
    {
      keyBlock := new Byte[BLOCK_BYTES](_ => 0);
      innerDigest := new Byte[32](_ => 0);
    }

    predicate Shaped() {
      keyBlock.Length == BLOCK_BYTES && innerDigest.Length == 32
    }

    predicate IsZero()
      reads keyBlock, innerDigest
    {
      && (forall i :: 0 <= i < keyBlock.Length ==> keyBlock[i] == 0)
      && (forall i :: 0 <= i < innerDigest.Length ==> innerDigest[i] == 0)
    }

    method Zeroize()
      modifies keyBlock, innerDigest
      ensures IsZero()
    {
      FillZero(keyBlock, 0, keyBlock.Length);
      FillZero(innerDigest, 0, innerDigest.Length);
    }
  }

  method HmacSha256WithScratch(key: seq<Byte>, messageParts: seq<seq<Byte>>, output: array<Byte>,
                               scratch: HmacSha256Scratch, afterCompute: Callback) returns (r: Outcome)
    requires scratch.Shaped() && output.Length == 32
    requires output != scratch.keyBlock && output != scratch.innerDigest && scratch.keyBlock != scratch.innerDigest
    requires |key| < TWO_61 && |Concat(messageParts)| < MAX_KEYED
    modifies output, scratch.keyBlock, scratch.innerDigest
    ensures r == OutcomeOf(afterCompute)
    ensures (r == Ok <==> afterCompute == Succeeds) && (r == Unwound <==> afterCompute == Panics)
    ensures r == Ok ==> output[..] == Hmac(key, Concat(messageParts))
    ensures r != Ok ==> output[..] == Zeros(32)
    ensures scratch.IsZero()
  {
    hide Hmac, Sha256, KeyBlock;
    FillZero(output, 0, 32);
    var keep := false;
    HmacSha256Into(key, messageParts, scratch.keyBlock, scratch.innerDigest, output);
    r := OutcomeOf(afterCompute);
    if r == Ok {
      keep := true;
    }
    if !keep {
      FillZero(output, 0, 32);
    }
    scratch.Zeroize();
  }

  // ---------- HKDF ----------

  class HkdfScratch {
    const keyBlock: array<Byte>
    const innerDigest: array<Byte>
    const prk: array<Byte>

    constructor ()
      ensures fresh(keyBlock) && fresh(innerDigest) && fresh(prk) && Shaped() && IsZero()
    {
      keyBlock := new Byte[BLOCK_BYTES](_ => 0);
      innerDigest := new Byte[32](_ => 0);
      prk := new Byte[32](_ => 0);
      new;
      // two 32-byte arrays allocated one after the other are different objects
      assert innerDigest != prk;
    }

    predicate Shaped() {
      && keyBlock.Length == BLOCK_BYTES && innerDigest.Length == 32 && prk.Length == 32
      && innerDigest != prk
    }

    predicate IsZero()
      reads keyBlock, innerDigest, prk
    {
      && (forall i :: 0 <= i < keyBlock.Length ==> keyBlock[i] == 0)
      && (forall i :: 0 <= i < innerDigest.Length ==> innerDigest[i] == 0)
      && (forall i :: 0 <= i < prk.Length ==> prk[i] == 0)
    }

    method Zeroize()
      modifies keyBlock, innerDigest, prk
      ensures IsZero()
    {
      FillZero(keyBlock, 0, keyBlock.Length);
      FillZero(innerDigest, 0, innerDigest.Length);
      FillZero(prk, 0, prk.Length);
    }
  }

  method HkdfSha256With32Scratch(inputKeyMaterial: seq<Byte>, salt: seq<Byte>, info: seq<Byte>, output: array<Byte>,
                                 scratch: HkdfScratch, afterExtract: Callback) returns (r: Outcome)
    requires scratch.Shaped() && output.Length == 32
    requires output != scratch.keyBlock && output != scratch.innerDigest && output != scratch.prk
    requires |salt| < TWO_61 && |inputKeyMaterial| < MAX_KEYED && |info| + 33 < MAX_KEYED
    modifies output, scratch.keyBlock, scratch.innerDigest, scratch.prk
    ensures r == OutcomeOf(afterExtract)
    ensures (r == Ok <==> afterExtract == Succeeds) && (r == Unwound <==> afterExtract == Panics)
    ensures r == Ok ==> output[..] == Hkdf(salt, inputKeyMaterial, info, 32)
                                   == Hmac(Hmac(salt, inputKeyMaterial), info + [1])
    ensures r != Ok ==> output[..] == Zeros(32)
    ensures scratch.IsZero()
  {
    hide Hmac, Sha256, KeyBlock, Expand;
    FillZero(output, 0, 32);
    var keep := false;
    assert Concat([inputKeyMaterial]) == inputKeyMaterial;
    HmacSha256Into(salt, [inputKeyMaterial], scratch.keyBlock, scratch.innerDigest, scratch.prk);
    r := OutcomeOf(afterExtract);
    if r == Ok {
      var counter: seq<Byte> := [1];
      assert Concat([info, counter]) == info + counter by {
        assert [info, counter][1..] == [counter];
        assert Concat([counter]) == counter;
      }
      ghost var prk := scratch.prk[..];
      HmacSha256Into(scratch.prk[..], [info, counter], scratch.keyBlock, scratch.innerDigest, output);
      ExpandOneBlock(prk, info);
      keep := true;
    }
    if !keep {
      FillZero(output, 0, 32);
    }
    scratch.Zeroize();
  }

  // ---------- Session keys ----------

  const SK_READER: seq<Byte> := [0x53, 0x4b, 0x52, 0x65, 0x61, 0x64, 0x65, 0x72]
  const SK_DEVICE: seq<Byte> := [0x53, 0x4b, 0x44, 0x65, 0x76, 0x69, 0x63, 0x65]

  lemma InfosAreAscii()
    ensures ByteNumbers.IsAscii(SK_READER, "SKReader") && ByteNumbers.IsAscii(SK_DEVICE, "SKDevice")
  {
  }

  function KeyInfo(reader: bool): (r: seq<Byte>)
    ensures |r| == 8
  {
    if reader then SK_READER else SK_DEVICE
  }

  /** The key both ends compute from the shared secret and the transcript. */
  function SessionKey(sharedSecret: seq<Byte>, transcript: seq<Byte>, reader: bool): seq<Byte>
    requires |sharedSecret| < MAX_KEYED && |transcript| < TWO_61
  {
    Hkdf(Sha256(transcript), sharedSecret, KeyInfo(reader), 32)
  }

  method DeriveSessionKey(sharedSecret: seq<Byte>, transcript: seq<Byte>, reader: bool) returns (okm: array<Byte>)
    requires |sharedSecret| < MAX_KEYED && |transcript| < TWO_61
    ensures fresh(okm) && okm[..] == SessionKey(sharedSecret, transcript, reader)
    ensures okm[..] == Hkdf(Sha256(transcript), sharedSecret, if reader then SK_READER else SK_DEVICE, 32)
  {
    hide Hkdf, Sha256;
    var saltHash := new SecureSha256();
    saltHash.Update(transcript);
    assert saltHash.message == transcript;
    var salt := saltHash.Finish();
    okm := new Byte[32](_ => 0);
    var scratch := new HkdfScratch();
    var r := HkdfSha256With32Scratch(sharedSecret, salt, KeyInfo(reader), okm, scratch, Succeeds);
    assert r == Ok;
  }
}
