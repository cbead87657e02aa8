/** The eight-lane SHA-256 (src/simd_sha256.rs): padding, schedule and rounds on
    eight messages at once, proved lane by lane against Fips180. */
module SimdSha256 {
  import opened Fips180

  const LANES: nat := 8

  /** One vector register: lane `i` belongs to message `i` of a group. */
  type Lanes = v: seq<Word> | |v| == 8 witness [0, 0, 0, 0, 0, 0, 0, 0]

  const INITIAL_STATE: seq<Word> := [
    0x6a09e667, 0xbb67ae85, 0x3c6ef372, 0xa54ff53a, 0x510e527f, 0x9b05688c, 0x1f83d9ab, 0x5be0cd19
  ]

  const ROUND_CONSTANTS: seq<Word> :=
    [0x428a2f98, 0x71374491, 0xb5c0fbcf, 0xe9b5dba5, 0x3956c25b, 0x59f111f1, 0x923f82a4, 0xab1c5ed5]
    + [0xd807aa98, 0x12835b01, 0x243185be, 0x550c7dc3, 0x72be5d74, 0x80deb1fe, 0x9bdc06a7, 0xc19bf174]
    + [0xe49b69c1, 0xefbe4786, 0x0fc19dc6, 0x240ca1cc, 0x2de92c6f, 0x4a7484aa, 0x5cb0a9dc, 0x76f988da]
    + [0x983e5152, 0xa831c66d, 0xb00327c8, 0xbf597fc7, 0xc6e00bf3, 0xd5a79147, 0x06ca6351, 0x14292967]
    + [0x27b70a85, 0x2e1b2138, 0x4d2c6dfc, 0x53380d13, 0x650a7354, 0x766a0abb, 0x81c2c92e, 0x92722c85]
    + [0xa2bfe8a1, 0xa81a664b, 0xc24b8b70, 0xc76c51a3, 0xd192e819, 0xd6990624, 0xf40e3585, 0x106aa070]
    + [0x19a4c116, 0x1e376c08, 0x2748774c, 0x34b0bcb5, 0x391c0cb3, 0x4ed8aa4a, 0x5b9cca4f, 0x682e6ff3]
    + [0x748f82ee, 0x78a5636f, 0x84c87814, 0x8cc70208, 0x90befffa, 0xa4506ceb, 0xbef9a3f7, 0xc67178f2]

  lemma ConstantsAgree()
    ensures INITIAL_STATE == H0
    ensures ROUND_CONSTANTS == K && |K| == 64
  {
  }

  // ---------- Vector operations ----------

  function Splat(w: Word): (r: Lanes)
    ensures forall i :: 0 <= i < 8 ==> r[i] == w
  {
    seq(8, _ => w)
  }

  function Map(x: Lanes, f: Word -> Word): (r: Lanes)
    ensures forall i :: 0 <= i < 8 ==> r[i] == f(x[i])
  {
    seq(8, i requires 0 <= i < 8 => f(x[i]))
  }

  function Zip(x: Lanes, y: Lanes, f: (Word, Word) -> Word): (r: Lanes)
    ensures forall i :: 0 <= i < 8 ==> r[i] == f(x[i], y[i])
  {
    seq(8, i requires 0 <= i < 8 => f(x[i], y[i]))
  }

  function Add(x: Lanes, y: Lanes): Lanes {
    Zip(x, y, Plus)
  }

  function And(x: Lanes, y: Lanes): Lanes {
    Zip(x, y, BitAnd)
  }

  function Or(x: Lanes, y: Lanes): Lanes {
    Zip(x, y, BitOr)
  }

  function Xor(x: Lanes, y: Lanes): Lanes {
    Zip(x, y, BitXor)
  }

  function Not(x: Lanes): Lanes {
    Map(x, BitNot)
  }

  function ShiftRight(x: Lanes, count: Count): Lanes {
    Map(x, a => ShR(a, count))
  }

  function ShiftLeft(x: Lanes, count: Count): Lanes {
    Map(x, a => ShL(a, count))
  }

  // ---------- The helpers of the round function ----------

  function RotateRight(value: Lanes, count: Count): (r: Lanes)
    ensures forall i :: 0 <= i < 8 ==> r[i] == RotR(value[i], count)
  {
    hide BitOr, ShR, ShL;
    Or(ShiftRight(value, count), ShiftLeft(value, 32 - count))
  }

  function Choose(x: Lanes, y: Lanes, z: Lanes): (r: Lanes)
    ensures forall i :: 0 <= i < 8 ==> r[i] == Ch(x[i], y[i], z[i])
  {
    hide BitAnd, BitXor, BitNot;
    Xor(And(x, y), And(Not(x), z))
  }

  function Majority(x: Lanes, y: Lanes, z: Lanes): (r: Lanes)
    ensures forall i :: 0 <= i < 8 ==> r[i] == Maj(x[i], y[i], z[i])
  {
    hide BitAnd, BitXor;
    Xor(Xor(And(x, y), And(x, z)), And(y, z))
  }

  function LaneBigSigmaZero(value: Lanes): (r: Lanes)
    ensures forall i :: 0 <= i < 8 ==> r[i] == BigSigma0(value[i])
  {
    hide BitXor, RotR;
    Xor(Xor(RotateRight(value, 2), RotateRight(value, 13)), RotateRight(value, 22))
  }

  function LaneBigSigmaOne(value: Lanes): (r: Lanes)
    ensures forall i :: 0 <= i < 8 ==> r[i] == BigSigma1(value[i])
  {
    hide BitXor, RotR;
    Xor(Xor(RotateRight(value, 6), RotateRight(value, 11)), RotateRight(value, 25))
  }

  function LaneSmallSigmaZero(value: Lanes): (r: Lanes)
    ensures forall i :: 0 <= i < 8 ==> r[i] == SmallSigma0(value[i])
  {
    hide BitXor, RotR, ShR;
    Xor(Xor(RotateRight(value, 7), RotateRight(value, 18)), ShiftRight(value, 3))
  }

  function LaneSmallSigmaOne(value: Lanes): (r: Lanes)
    ensures forall i :: 0 <= i < 8 ==> r[i] == SmallSigma1(value[i])
  {
    hide BitXor, RotR, ShR;
    Xor(Xor(RotateRight(value, 17), RotateRight(value, 19)), ShiftRight(value, 10))
  }

  // ---------- Padding, one block at a time ----------

  function Sha256BlockCount(inputLen: nat): nat {
    inputLen / BLOCK_BYTES + (if inputLen % BLOCK_BYTES >= 56 then 1 else 0) + 1
  }

  /** The length field as the lane code computes it, on 64-bit words. */
  function WrappedBits(len: nat): (bits: nat)
    ensures bits < TWO_64
  {
    len * 8 % TWO_64
  }

  function LanePadded(input: seq<Byte>): seq<Byte> {
    PaddedWith(input, WrappedBits(|input|))
  }

  /** What every lane computes, on messages of any length. */
  function LaneSha256(input: seq<Byte>): Digest {
    StateBytes(Fold(H0, LanePadded(input)))
  }

  /** The block count is exactly the number of blocks of the padded message,
      and no smaller number of blocks has room for the padding. */
  lemma BlockCountIsPaddedLength(input: seq<Byte>)
    ensures |LanePadded(input)| == 64 * Sha256BlockCount(|input|)
    ensures forall n: nat :: |input| + 9 <= 64 * n ==> Sha256BlockCount(|input|) <= n
  {
    var q, r := |input| / 64, |input| % 64;
    assert |input| == 64 * q + r;
    assert ZeroCount(|input|) == if r >= 56 then 119 - r else 55 - r;
  }

  function LaneBlock(input: seq<Byte>, blockIndex: nat): Block
    requires blockIndex < Sha256BlockCount(|input|)
  {
    BlockCountIsPaddedLength(input);
    LanePadded(input)[64 * blockIndex..64 * blockIndex + 64]
  }

  /** The padded message byte by byte. */
  lemma LanePaddedAt(input: seq<Byte>, j: nat)
    requires j < |LanePadded(input)|
    ensures var total := |LanePadded(input)|;
      LanePadded(input)[j] ==
        if j < |input| then input[j]
        else if j == |input| then 0x80
        else if j < total - 8 then 0
        else BigEndian64(WrappedBits(|input|))[j - (total - 8)]
  {
    hide BigEndian64, WrappedBits;
  }

  method FillBlock(input: seq<Byte>, blockIndex: nat, blockCount: nat, block: array<Byte>)
    requires block.Length == BLOCK_BYTES
    requires blockIndex < blockCount == Sha256BlockCount(|input|)
    modifies block
    ensures block[..] == LaneBlock(input, blockIndex)
  {
    hide LanePadded, BigEndian64, WrappedBits, Zeros;
    for i := 0 to BLOCK_BYTES
      invariant forall k :: 0 <= k < i ==> block[k] == 0
    {
      block[i] := 0;
    }
    var start := blockIndex * BLOCK_BYTES;
    if start < |input| {
      var byteCount := if |input| - start < BLOCK_BYTES then |input| - start else BLOCK_BYTES;
      for i := 0 to byteCount
        invariant forall k :: 0 <= k < i ==> block[k] == input[start + k]
        invariant forall k :: i <= k < BLOCK_BYTES ==> block[k] == 0
      {
        block[i] := input[start + i];
      }
    }
    if start <= |input| < start + BLOCK_BYTES {
      block[|input| - start] := 0x80;
    }
    BlockCountIsPaddedLength(input);
    ghost var before := block[..];
    if blockIndex + 1 == blockCount {
      var bitLength := BigEndian64(WrappedBits(|input|));
      for i := 0 to 8
        invariant forall k :: 0 <= k < i ==> block[56 + k] == bitLength[k]
        invariant forall k :: 0 <= k < 56 ==> block[k] == before[k]
      {
        block[56 + i] := bitLength[i];
      }
    }
    ghost var total := |LanePadded(input)|;
    assert total == 64 * blockCount;
    forall k | 0 <= k < BLOCK_BYTES
      ensures block[k] == LaneBlock(input, blockIndex)[k]
    {
      assert LaneBlock(input, blockIndex)[k] == LanePadded(input)[start + k];
      assert k >= 56 && blockIndex + 1 == blockCount ==> start + k - (total - 8) == k - 56;
      LanePaddedAt(input, start + k);
    }
  }

  // ---------- Schedule and rounds on eight blocks ----------

  /** Lane `lane` of eight registers, as a chaining value. */
  function Column(state: seq<Lanes>, lane: nat): State
    requires |state| == 8 && lane < 8
  {
    [state[0][lane], state[1][lane], state[2][lane], state[3][lane],
     state[4][lane], state[5][lane], state[6][lane], state[7][lane]]
  }

  ghost predicate ScheduleHolds(schedule: seq<Lanes>, staged: seq<Block>, t: nat)
    requires |schedule| == 64 && |staged| == 8 && t <= 64
  {
    forall k, lane :: 0 <= k < t && 0 <= lane < 8 ==> schedule[k][lane] == W(staged[lane], k)
  }

  lemma ScheduleStep(schedule: seq<Lanes>, staged: seq<Block>, t: nat, next: Lanes)
    requires |schedule| == 64 && |staged| == 8 && 16 <= t < 64
    requires ScheduleHolds(schedule, staged, t)
    requires next == Add(Add(Add(LaneSmallSigmaOne(schedule[t - 2]), schedule[t - 7]),
                             LaneSmallSigmaZero(schedule[t - 15])),
                         schedule[t - 16])
    ensures ScheduleHolds(schedule[t := next], staged, t + 1)
  {
    forall lane | 0 <= lane < 8
      ensures next[lane] == W(staged[lane], t)
    {
      hide MessageWord, SmallSigma0, SmallSigma1, Plus;
      var s1, s0 := LaneSmallSigmaOne(schedule[t - 2]), LaneSmallSigmaZero(schedule[t - 15]);
      assert next[lane] == NextWord(schedule[t - 2][lane], schedule[t - 7][lane], schedule[t - 15][lane],
                                    schedule[t - 16][lane]) by {
        assert s1[lane] == SmallSigma1(schedule[t - 2][lane]);
        assert s0[lane] == SmallSigma0(schedule[t - 15][lane]);
        assert Add(s1, schedule[t - 7])[lane] == Plus(s1[lane], schedule[t - 7][lane]);
        assert Add(Add(s1, schedule[t - 7]), s0)[lane] == Plus(Plus(s1[lane], schedule[t - 7][lane]), s0[lane]);
      }
    }
    hide W;
  }

  method BuildSchedule(staged: seq<Block>) returns (schedule: array<Lanes>)
    requires |staged| == 8
    ensures fresh(schedule) && schedule.Length == 64
    ensures ScheduleHolds(schedule[..], staged, 64)
  {
    hide WordFromBytes, NextWord, Plus, LaneSmallSigmaOne, LaneSmallSigmaZero, Add;
    schedule := new Lanes[64](_ => Splat(0));
    for wordIndex := 0 to 16
      invariant ScheduleHolds(schedule[..], staged, wordIndex)
    {
      var offset := wordIndex * 4;
      schedule[wordIndex] := seq(8, lane requires 0 <= lane < 8 =>
        WordFromBytes(staged[lane][offset], staged[lane][offset + 1], staged[lane][offset + 2],
                      staged[lane][offset + 3]));
    }
    for index := 16 to 64
      invariant ScheduleHolds(schedule[..], staged, index)
    {
      var next :=
        Add(Add(Add(LaneSmallSigmaOne(schedule[index - 2]), schedule[index - 7]),
                LaneSmallSigmaZero(schedule[index - 15])),
            schedule[index - 16]);
      ScheduleStep(schedule[..], staged, index, next);
      ghost var before := schedule[..];
      schedule[index] := next;
      assert schedule[..] == before[index := next];
    }
  }

  /** Lane by lane, the eight working registers are FIPS's after `t` rounds. */
  ghost predicate LanesHold(a: Lanes, b: Lanes, c: Lanes, d: Lanes, e: Lanes, f: Lanes, g: Lanes, h: Lanes,
                            state: seq<Lanes>, staged: seq<Block>, t: nat)
    requires |state| == 8 && |staged| == 8 && t <= 64
  {
    forall lane :: 0 <= lane < 8 ==>
      Vars(a[lane], b[lane], c[lane], d[lane], e[lane], f[lane], g[lane], h[lane])
      == Rounds(Column(state, lane), staged[lane], t)
  }

  lemma {:induction false} RoundStep(a: Lanes, b: Lanes, c: Lanes, d: Lanes, e: Lanes, f: Lanes, g: Lanes, h: Lanes,
                  state: seq<Lanes>, staged: seq<Block>, t: nat, w: Lanes, first: Lanes, second: Lanes)
    requires |state| == 8 && |staged| == 8 && t < 64
    requires LanesHold(a, b, c, d, e, f, g, h, state, staged, t)
    requires forall lane :: 0 <= lane < 8 ==> w[lane] == W(staged[lane], t)
    requires first == Add(Add(Add(Add(h, LaneBigSigmaOne(e)), Choose(e, f, g)), Splat(K[t])), w)
    requires second == Add(LaneBigSigmaZero(a), Majority(a, b, c))
    ensures LanesHold(Add(first, second), a, b, c, Add(d, first), e, f, g, state, staged, t + 1)
  {
    hide W, BigSigma0, BigSigma1, Ch, Maj, Plus, LaneBigSigmaOne, LaneBigSigmaZero, Choose, Majority, Column;
    forall lane | 0 <= lane < 8
      ensures Vars(Add(first, second)[lane], a[lane], b[lane], c[lane], Add(d, first)[lane], e[lane], f[lane], g[lane])
              == Rounds(Column(state, lane), staged[lane], t + 1)
    {
      var v := Vars(a[lane], b[lane], c[lane], d[lane], e[lane], f[lane], g[lane], h[lane]);
      var x1 := Add(h, LaneBigSigmaOne(e));
      var x2 := Add(x1, Choose(e, f, g));
      var x3 := Add(x2, Splat(K[t]));
      assert first[lane] == Plus(x3[lane], w[lane]);
      assert Rounds(Column(state, lane), staged[lane], t + 1) == Round(v, K[t], W(staged[lane], t));
    }
  }

  lemma AddState(old_: seq<Lanes>, new_: seq<Lanes>, v: seq<Lanes>, lane: nat)
    requires |old_| == |new_| == |v| == 8 && lane < 8
    requires forall k :: 0 <= k < 8 ==> new_[k] == Add(old_[k], v[k])
    ensures Column(new_, lane)
         == AddVars(Column(old_, lane), Vars(v[0][lane], v[1][lane], v[2][lane], v[3][lane],
                                             v[4][lane], v[5][lane], v[6][lane], v[7][lane]))
  {
    hide Plus;
    assert forall k :: 0 <= k < 8 ==> new_[k][lane] == Plus(old_[k][lane], v[k][lane]);
  }

  lemma LanesStart(state: seq<Lanes>, staged: seq<Block>)
    requires |state| == 8 && |staged| == 8
    ensures LanesHold(state[0], state[1], state[2], state[3], state[4], state[5], state[6], state[7], state, staged, 0)
  {
    hide W;
  }

  /** The 64 rounds, started from `state`. */
  method RunRounds(state: seq<Lanes>, schedule: array<Lanes>, ghost staged: seq<Block>) returns (v: seq<Lanes>)
    requires |state| == 8 && schedule.Length == 64 && |staged| == 8
    requires ScheduleHolds(schedule[..], staged, 64)
    ensures |v| == 8 && LanesHold(v[0], v[1], v[2], v[3], v[4], v[5], v[6], v[7], state, staged, 64)
  {
    hide W, Add, LaneBigSigmaOne, LaneBigSigmaZero, Choose, Majority, Splat, LanesHold;
    ConstantsAgree();
    var a, b, c, d := state[0], state[1], state[2], state[3];
    var e, f, g, h := state[4], state[5], state[6], state[7];
    LanesStart(state, staged);
    for index := 0 to 64
      invariant LanesHold(a, b, c, d, e, f, g, h, state, staged, index)
    {
      var first := Add(Add(Add(Add(h, LaneBigSigmaOne(e)), Choose(e, f, g)), Splat(ROUND_CONSTANTS[index])),
                       schedule[index]);
      var second := Add(LaneBigSigmaZero(a), Majority(a, b, c));
      RoundStep(a, b, c, d, e, f, g, h, state, staged, index, schedule[index], first, second);
      h := g;
      g := f;
      f := e;
      e := Add(d, first);
      d := c;
      c := b;
      b := a;
      a := Add(first, second);
    }
    v := [a, b, c, d, e, f, g, h];
  }

  method CompressLanes(state: array<Lanes>, schedule: array<Lanes>, ghost staged: seq<Block>)
    requires state.Length == 8 && schedule.Length == 64 && |staged| == 8 && state != schedule
    requires ScheduleHolds(schedule[..], staged, 64)
    modifies state
    ensures forall lane :: 0 <= lane < 8 ==>
      Column(state[..], lane) == Compress(old(Column(state[..], lane)), staged[lane])
  {
    hide W, Add, Column, Rounds, AddVars;
    ghost var before := state[..];
    var v := RunRounds(state[..], schedule, staged);
    state[0] := Add(state[0], v[0]);
    state[1] := Add(state[1], v[1]);
    state[2] := Add(state[2], v[2]);
    state[3] := Add(state[3], v[3]);
    state[4] := Add(state[4], v[4]);
    state[5] := Add(state[5], v[5]);
    state[6] := Add(state[6], v[6]);
    state[7] := Add(state[7], v[7]);
    forall lane | 0 <= lane < 8
      ensures Column(state[..], lane) == Compress(Column(before, lane), staged[lane])
    {
      AddState(before, state[..], v, lane);
    }
  }

  // ---------- Eight messages, then many ----------

  /** The chaining value after the first blocks of a padded message. */
  function FoldOf(padded: seq<Byte>, blocks: nat): State
    requires 64 * blocks <= |padded|
  {
    Fold(H0, padded[..64 * blocks])
  }

  lemma FoldOneMore(input: seq<Byte>, blockIndex: nat)
    requires blockIndex < Sha256BlockCount(|input|)
    ensures 64 * (blockIndex + 1) <= |LanePadded(input)|
    ensures FoldOf(LanePadded(input), blockIndex + 1)
         == Compress(FoldOf(LanePadded(input), blockIndex), LaneBlock(input, blockIndex))
  {
    hide LanePadded, Compress;
    BlockCountIsPaddedLength(input);
    var p, block := LanePadded(input), LaneBlock(input, blockIndex);
    assert p[..64 * (blockIndex + 1)] == p[..64 * blockIndex] + block;
    FoldAppend(H0, p[..64 * blockIndex], block);
    assert block[..64] == block && block[64..] == [];
  }

  ghost predicate LanesFolded(state: seq<Lanes>, inputs: seq<seq<Byte>>, blockIndex: nat)
    requires |state| == 8 && |inputs| == 8
    requires forall lane :: 0 <= lane < 8 ==> 64 * blockIndex <= |LanePadded(inputs[lane])|
  {
    forall lane :: 0 <= lane < 8 ==>
      Column(state, lane) == FoldOf(LanePadded(inputs[lane]), blockIndex)
  }

  /** Block `blockIndex` of each of the eight messages. */
  method StageBlocks(inputs: seq<seq<Byte>>, blockIndex: nat, blockCount: nat) returns (staged: seq<Block>)
    requires |inputs| == LANES && blockIndex < blockCount
    requires forall lane :: 0 <= lane < 8 ==> Sha256BlockCount(|inputs[lane]|) == blockCount
    ensures |staged| == LANES
    ensures forall lane :: 0 <= lane < 8 ==> staged[lane] == LaneBlock(inputs[lane], blockIndex)
  {
    hide LanePadded, Sha256BlockCount;
    staged := [];
    for lane := 0 to 8
      invariant |staged| == lane
      invariant forall l :: 0 <= l < lane ==> staged[l] == LaneBlock(inputs[l], blockIndex)
    {
      var block := new Byte[BLOCK_BYTES](_ => 0);
      FillBlock(inputs[lane], blockIndex, blockCount, block);
      staged := staged + [block[..]];
    }
  }

  method HashEight(inputs: seq<seq<Byte>>, blockCount: nat) returns (digests: seq<Digest>)
    requires |inputs| == LANES
    requires forall lane :: 0 <= lane < 8 ==> Sha256BlockCount(|inputs[lane]|) == blockCount
    ensures |digests| == LANES
    ensures forall lane :: 0 <= lane < 8 ==> digests[lane] == LaneSha256(inputs[lane])
  {
    hide LanePadded, Compress, ScheduleHolds, Sha256BlockCount, StateBytes, Column;
    forall lane | 0 <= lane < 8
      ensures |LanePadded(inputs[lane])| == 64 * blockCount
    {
      BlockCountIsPaddedLength(inputs[lane]);
    }
    var state := new Lanes[8](i requires 0 <= i < 8 => Splat(INITIAL_STATE[i]));
    LanesInitial(state[..], inputs);
    for blockIndex := 0 to blockCount
      invariant LanesFolded(state[..], inputs, blockIndex)
    {
      ghost var before := state[..];
      var staged := StageBlocks(inputs, blockIndex, blockCount);
      var schedule := BuildSchedule(staged);
      CompressLanes(state, schedule, staged);
      forall lane | 0 <= lane < 8
        ensures Column(state[..], lane) == FoldOf(LanePadded(inputs[lane]), blockIndex + 1)
      {
        FoldOneMore(inputs[lane], blockIndex);
        assert Column(state[..], lane) == Compress(Column(before, lane), staged[lane]);
      }
    }
    var words := state[..];
    digests := [];
    for lane := 0 to 8
      invariant |digests| == lane
      invariant forall l :: 0 <= l < lane ==> digests[l] == LaneSha256(inputs[l])
    {
      assert LanePadded(inputs[lane])[..64 * blockCount] == LanePadded(inputs[lane]);
      var digest := Serialise(words, lane);
      assert digest == LaneSha256(inputs[lane]);
      digests := digests + [digest];
    }
  }

  lemma LanesInitial(state: seq<Lanes>, inputs: seq<seq<Byte>>)
    requires |state| == 8 && |inputs| == 8
    requires forall k :: 0 <= k < 8 ==> state[k] == Splat(INITIAL_STATE[k])
    ensures LanesFolded(state, inputs, 0)
  {
    ConstantsAgree();
    forall lane | 0 <= lane < 8
      ensures Column(state, lane) == H0
    {
      assert forall k :: 0 <= k < 8 ==> Column(state, lane)[k] == H0[k];
    }
    hide LanePadded, Compress;
  }

  /** One lane's eight words written out most significant byte first. */
  method Serialise(state: seq<Lanes>, lane: nat) returns (digest: Digest)
    requires |state| == 8 && lane < 8
    ensures digest == StateBytes(Column(state, lane))
  {
    hide WordBytes;
    var out: seq<Byte> := [];
    for wordIndex := 0 to 8
      invariant out == WordsBytes(Column(state, lane), wordIndex)
    {
      assert Column(state, lane)[wordIndex] == state[wordIndex][lane];
      out := out + WordBytes(state[wordIndex][lane]);
    }
    digest := out;
  }

  predicate GroupingHolds(inputs: seq<seq<Byte>>, outputCount: nat) {
    && |inputs| == outputCount
    && |inputs| % LANES == 0
    && forall i :: 0 <= i < |inputs| ==> Sha256BlockCount(|inputs[i]|) == Sha256BlockCount(|inputs[0]|)
  }

  method HashManySameBlockCount(inputs: seq<seq<Byte>>, outputs: array<Digest>) returns (ok: bool)
    modifies outputs
    ensures ok <==> GroupingHolds(inputs, outputs.Length)
    ensures ok ==> forall i :: 0 <= i < outputs.Length ==> outputs[i] == LaneSha256(inputs[i])
    ensures !ok ==> outputs[..] == old(outputs[..])
  {
    hide Sha256BlockCount, LaneSha256;
    if |inputs| != outputs.Length || |inputs| % LANES != 0 {
      return false;
    }
    if |inputs| == 0 {
      return true;
    }
    var blockCount := Sha256BlockCount(|inputs[0]|);
    if exists i :: 0 <= i < |inputs| && Sha256BlockCount(|inputs[i]|) != blockCount {
      return false;
    }
    for group := 0 to |inputs| / LANES
      invariant forall i :: 0 <= i < 8 * group ==> outputs[i] == LaneSha256(inputs[i])
    {
      var digests := HashEight(inputs[8 * group..8 * group + 8], blockCount);
      for lane := 0 to LANES
        invariant forall i :: 0 <= i < 8 * group + lane ==> outputs[i] == LaneSha256(inputs[i])
      {
        outputs[8 * group + lane] := digests[lane];
      }
    }
    ok := true;
  }

  // ---------- Agreement with FIPS 180-4 ----------

  /** The wrapped length field is the true bit length exactly below 2^61 bytes. */
  lemma WrappedBitsExact(len: nat)
    ensures WrappedBits(len) == 8 * len <==> len < TWO_61
  {
  }

  lemma LaneSha256IsSha256(m: seq<Byte>)
    requires |m| < TWO_61
    ensures LaneSha256(m) == Sha256(m)
  {
    hide Fold, StateBytes, PaddedWith;
    WrappedBitsExact(|m|);
  }
}
