/** SHA-256 as FIPS 180-4 writes it, kept apart from both implementations so
    that each can be proved against it. */
module Fips180 {
  import ByteNumbers

  type Byte = bv8
  type Word = bv32

  /** A shift or rotation distance. */
  type Count = c: bv6 | c <= 32

  const BLOCK_BYTES: nat := 64
  const TWO_64: nat := 0x1_0000_0000_0000_0000
  const TWO_61: nat := 0x2000_0000_0000_0000

  type Block = s: seq<Byte> | |s| == 64 witness Zeros(64)
  type State = s: seq<Word> | |s| == 8 witness [0, 0, 0, 0, 0, 0, 0, 0]
  type Digest = s: seq<Byte> | |s| == 32 witness Zeros(32)

  function Zeros(n: nat): (r: seq<Byte>)
    ensures |r| == n
    ensures forall i :: 0 <= i < n ==> r[i] == 0
  {
    seq(n, _ => 0)
  }

  // ---------- Sections 2.2.2 and 3.2: operations on words ----------

  function Plus(x: Word, y: Word): Word {
    x + y
  }

  function BitAnd(x: Word, y: Word): Word {
    x & y
  }

  function BitOr(x: Word, y: Word): Word {
    x | y
  }

  function BitXor(x: Word, y: Word): Word {
    x ^ y
  }

  function BitNot(x: Word): Word {
    !x
  }

  function ShR(x: Word, n: Count): Word {
    x >> n
  }

  function ShL(x: Word, n: Count): Word {
    x << n
  }

  function RotR(x: Word, n: Count): Word {
    BitOr(ShR(x, n), ShL(x, 32 - n))
  }

  // ---------- Section 4.1.2: functions on words ----------

  function Ch(x: Word, y: Word, z: Word): Word {
    BitXor(BitAnd(x, y), BitAnd(BitNot(x), z))
  }

  function Maj(x: Word, y: Word, z: Word): Word {
    BitXor(BitXor(BitAnd(x, y), BitAnd(x, z)), BitAnd(y, z))
  }

  function BigSigma0(x: Word): Word {
    BitXor(BitXor(RotR(x, 2), RotR(x, 13)), RotR(x, 22))
  }

  function BigSigma1(x: Word): Word {
    BitXor(BitXor(RotR(x, 6), RotR(x, 11)), RotR(x, 25))
  }

  function SmallSigma0(x: Word): Word {
    BitXor(BitXor(RotR(x, 7), RotR(x, 18)), ShR(x, 3))
  }

  function SmallSigma1(x: Word): Word {
    BitXor(BitXor(RotR(x, 17), RotR(x, 19)), ShR(x, 10))
  }

  // ---------- Sections 4.2.2 and 5.3.3: constants ----------

  const H0: State := [
    0x6a09e667, 0xbb67ae85, 0x3c6ef372, 0xa54ff53a, 0x510e527f, 0x9b05688c, 0x1f83d9ab, 0x5be0cd19
  ]

  const K: seq<Word> :=
    [0x428a2f98, 0x71374491, 0xb5c0fbcf, 0xe9b5dba5, 0x3956c25b, 0x59f111f1, 0x923f82a4, 0xab1c5ed5]
    + [0xd807aa98, 0x12835b01, 0x243185be, 0x550c7dc3, 0x72be5d74, 0x80deb1fe, 0x9bdc06a7, 0xc19bf174]
    + [0xe49b69c1, 0xefbe4786, 0x0fc19dc6, 0x240ca1cc, 0x2de92c6f, 0x4a7484aa, 0x5cb0a9dc, 0x76f988da]
    + [0x983e5152, 0xa831c66d, 0xb00327c8, 0xbf597fc7, 0xc6e00bf3, 0xd5a79147, 0x06ca6351, 0x14292967]
    + [0x27b70a85, 0x2e1b2138, 0x4d2c6dfc, 0x53380d13, 0x650a7354, 0x766a0abb, 0x81c2c92e, 0x92722c85]
    + [0xa2bfe8a1, 0xa81a664b, 0xc24b8b70, 0xc76c51a3, 0xd192e819, 0xd6990624, 0xf40e3585, 0x106aa070]
    + [0x19a4c116, 0x1e376c08, 0x2748774c, 0x34b0bcb5, 0x391c0cb3, 0x4ed8aa4a, 0x5b9cca4f, 0x682e6ff3]
    + [0x748f82ee, 0x78a5636f, 0x84c87814, 0x8cc70208, 0x90befffa, 0xa4506ceb, 0xbef9a3f7, 0xc67178f2]

  // ---------- Section 5.1.1: padding ----------

  /** The number of zero bytes between the 0x80 byte and the length field. */
  function ZeroCount(len: nat): (k: nat)
    ensures k < 64 && (len + 1 + k) % 64 == 56
  {
    (119 - len % 64) % 64
  }

  function BigEndian64(n: nat): (r: seq<Byte>)
    requires n < TWO_64
    ensures |r| == 8
  {
    ByteNumbers.BigEndian(n, 8)
  }

  /** `m` followed by 0x80, zeros and the given 64-bit length field. */
  function PaddedWith(m: seq<Byte>, bits: nat): (r: seq<Byte>)
    requires bits < TWO_64
    ensures |r| == |m| + 9 + ZeroCount(|m|)
    ensures |r| % 64 == 0
  {
    m + [0x80] + Zeros(ZeroCount(|m|)) + BigEndian64(bits)
  }

  /** The padded message: defined for messages of fewer than 2^64 bits. */
  function Padded(m: seq<Byte>): (r: seq<Byte>)
    requires |m| < TWO_61
    ensures |r| % 64 == 0
  {
    PaddedWith(m, 8 * |m|)
  }

  // ---------- Section 6.2.2: the hash computation ----------

  /** Word `t` of a block, most significant byte first (section 5.2.1). */
  function MessageWord(block: Block, t: nat): Word
    requires t < 16
  {
    WordFromBytes(block[4 * t], block[4 * t + 1], block[4 * t + 2], block[4 * t + 3])
  }

  function WordFromBytes(b0: Byte, b1: Byte, b2: Byte, b3: Byte): Word {
    ((b0 as Word) << 24) | ((b1 as Word) << 16) | ((b2 as Word) << 8) | (b3 as Word)
  }

  function NextWord(w2: Word, w7: Word, w15: Word, w16: Word): Word {
    Plus(Plus(Plus(SmallSigma1(w2), w7), SmallSigma0(w15)), w16)
  }

  /** The message schedule. */
  function W(block: Block, t: nat): Word
    requires t < 64
  {
    if t < 16 then MessageWord(block, t)
    else NextWord(W(block, t - 2), W(block, t - 7), W(block, t - 15), W(block, t - 16))
  }

  datatype Vars = Vars(a: Word, b: Word, c: Word, d: Word, e: Word, f: Word, g: Word, h: Word)

  function Round(v: Vars, k: Word, w: Word): Vars {
    var t1 := Plus(Plus(Plus(Plus(v.h, BigSigma1(v.e)), Ch(v.e, v.f, v.g)), k), w);
    var t2 := Plus(BigSigma0(v.a), Maj(v.a, v.b, v.c));
    Vars(Plus(t1, t2), v.a, v.b, v.c, Plus(v.d, t1), v.e, v.f, v.g)
  }

  /** The working variables after `t` rounds over `block`, started from `s`. */
  function Rounds(s: State, block: Block, t: nat): Vars
    requires t <= 64
  {
    if t == 0 then Vars(s[0], s[1], s[2], s[3], s[4], s[5], s[6], s[7])
    else Round(Rounds(s, block, t - 1), K[t - 1], W(block, t - 1))
  }

  function AddVars(s: State, v: Vars): State {
    [Plus(s[0], v.a), Plus(s[1], v.b), Plus(s[2], v.c), Plus(s[3], v.d),
     Plus(s[4], v.e), Plus(s[5], v.f), Plus(s[6], v.g), Plus(s[7], v.h)]
  }

  function Compress(s: State, block: Block): State {
    AddVars(s, Rounds(s, block, 64))
  }

  /** Compression folded over the 64-byte blocks of `data`. */
  function Fold(s: State, data: seq<Byte>): State
    requires |data| % 64 == 0
    decreases |data|
  {
    if |data| == 0 then s else Fold(Compress(s, data[..64]), data[64..])
  }

  function WordBytes(w: Word): (r: seq<Byte>)
    ensures |r| == 4
  {
    [((w >> 24) & 0xff) as Byte, ((w >> 16) & 0xff) as Byte, ((w >> 8) & 0xff) as Byte, (w & 0xff) as Byte]
  }

  /** The first `n` words of a state, most significant byte first. */
  function WordsBytes(s: State, n: nat): (r: seq<Byte>)
    requires n <= 8
    ensures |r| == 4 * n
  {
    if n == 0 then [] else WordsBytes(s, n - 1) + WordBytes(s[n - 1])
  }

  function StateBytes(s: State): Digest {
    WordsBytes(s, 8)
  }

  function Sha256(m: seq<Byte>): Digest
    requires |m| < TWO_61
  {
    StateBytes(Fold(H0, Padded(m)))
  }

  // ---------- Properties of the specification ----------

  /** Where the sigma functions move the lowest and the highest bit, and the
      truth tables of Ch and Maj. */
  lemma FunctionsOnBits()
    ensures BigSigma0(0x0000_0001) == 0x4008_0400 && BigSigma1(0x0000_0001) == 0x0420_0080
    ensures SmallSigma0(0x0000_0001) == 0x0200_4000 && SmallSigma0(0x8000_0000) == 0x1100_2000
    ensures SmallSigma1(0x0000_0001) == 0x0000_a000 && SmallSigma1(0x8000_0000) == 0x0020_5000
    ensures Ch(0xf0, 0xcc, 0xaa) == 0xca && Maj(0xf0, 0xcc, 0xaa) == 0xe8
  {
  }

  /** Words are read and written most significant byte first. */
  lemma ByteOrder(b0: Byte, b1: Byte, b2: Byte, b3: Byte)
    ensures WordBytes(WordFromBytes(b0, b1, b2, b3)) == [b0, b1, b2, b3]
    ensures WordBytes(0x0102_0304) == [1, 2, 3, 4]
  {
  }

  /** The length field reads as the number it stands for. */
  lemma LengthFieldIsNumber(n: nat)
    requires n < TWO_64
    ensures ByteNumbers.FromBigEndian(BigEndian64(n)) == n
  {
    hide ByteNumbers.BigEndian;
    assert ByteNumbers.Pow256(8) == TWO_64 by {
      assert ByteNumbers.Pow256(4) == 0x1_0000_0000;
      assert ByteNumbers.Pow256(6) == 0x1_0000_0000_0000;
    }
    ByteNumbers.BigEndianRoundTrip(n, 8);
  }

  /** The first round of the one-block example of FIPS 180-4, the message "abc". */
  lemma {:induction false} FirstRoundOfExample(block: Block)
    requires block[0] == 0x61 && block[1] == 0x62 && block[2] == 0x63 && block[3] == 0x80
    ensures var v := Rounds(H0, block, 1);
      v == Vars(0x5d6aebcd, H0[0], H0[1], H0[2], 0xfa2a4622, H0[4], H0[5], H0[6])
  {
    assert MessageWord(block, 0) == 0x61626380;
    assert Rounds(H0, block, 1) == Round(Rounds(H0, block, 0), 0x428a2f98, 0x61626380);
  }

  /** The recurrences of section 6.2.2, steps 1 and 3. */
  lemma Recurrences(s: State, block: Block, t: nat)
    requires t < 64
    ensures t >= 16 ==>
              W(block, t) == Plus(Plus(Plus(SmallSigma1(W(block, t - 2)), W(block, t - 7)),
                                       SmallSigma0(W(block, t - 15))),
                                  W(block, t - 16))
    ensures var (v, v') := (Rounds(s, block, t), Rounds(s, block, t + 1));
      var t1 := Plus(Plus(Plus(Plus(v.h, BigSigma1(v.e)), Ch(v.e, v.f, v.g)), K[t]), W(block, t));
      v' == Vars(Plus(t1, Plus(BigSigma0(v.a), Maj(v.a, v.b, v.c))), v.a, v.b, v.c, Plus(v.d, t1), v.e, v.f, v.g)
  {
    hide BigSigma0, BigSigma1, SmallSigma0, SmallSigma1, Ch, Maj, Plus, K, MessageWord;
  }

  /** The padding is minimal: no shorter run of zeros completes a block. */
  lemma PaddingIsMinimal(len: nat, j: nat)
    requires j < ZeroCount(len)
    ensures (len + 1 + j) % 64 != 56
  {
    assert ZeroCount(len) < 64;
  }

  lemma {:induction false} FoldAppend(s: State, x: seq<Byte>, y: seq<Byte>)
    requires |x| % 64 == 0 && |y| % 64 == 0
    ensures |x + y| % 64 == 0
    ensures Fold(s, x + y) == Fold(Fold(s, x), y)
    decreases |x|
  {
    hide Compress;
    if |x| == 0 {
      assert x + y == y;
    } else {
      assert (x + y)[..64] == x[..64];
      assert (x + y)[64..] == x[64..] + y;
      FoldAppend(Compress(s, x[..64]), x[64..], y);
    }
  }
}
