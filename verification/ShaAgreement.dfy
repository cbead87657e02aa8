/** The lane padder and the streaming padder agree (src/simd_sha256.rs,
    src/definitions/session_crypto.rs). */
module ShaAgreement {
  import opened Fips180
  import Lane = SimdSha256
  import Streaming = SessionCrypto

  /** The first `n` blocks the lane code stages for a message. */
  function LaneBlocks(m: seq<Byte>, n: nat): (r: seq<Byte>)
    requires n <= Lane.Sha256BlockCount(|m|)
    ensures |r| == 64 * n
  {
    if n == 0 then [] else LaneBlocks(m, n - 1) + Lane.LaneBlock(m, n - 1)
  }

  lemma {:induction false} LaneBlocksArePrefix(m: seq<Byte>, n: nat)
    requires n <= Lane.Sha256BlockCount(|m|)
    ensures 64 * n <= |Lane.LanePadded(m)|
    ensures LaneBlocks(m, n) == Lane.LanePadded(m)[..64 * n]
  {
    Lane.BlockCountIsPaddedLength(m);
    hide Lane.LanePadded;
    if n > 0 {
      LaneBlocksArePrefix(m, n - 1);
      var padded := Lane.LanePadded(m);
      assert padded[..64 * n] == padded[..64 * (n - 1)] + padded[64 * (n - 1)..64 * n];
    }
  }

  /** Below 2^61 bytes the staged blocks, the FIPS 180-4 padded message and the
      blocks the streaming hash compresses are the same bytes; the number of
      blocks is the least that has room for the 0x80 byte and the length. */
  lemma {:induction false} PaddersAgree(m: seq<Byte>)
    requires |m| < TWO_61
    ensures var blocks := LaneBlocks(m, Lane.Sha256BlockCount(|m|));
      && blocks == Padded(m)
      && blocks == Streaming.FullBlocks(m) + Streaming.FinalBlocks(Streaming.Tail(m), 8 * |m|)
    ensures forall n: nat :: |m| + 9 <= 64 * n ==> Lane.Sha256BlockCount(|m|) <= n
  {
    Lane.BlockCountIsPaddedLength(m);
    Lane.WrappedBitsExact(|m|);
    LaneBlocksArePrefix(m, Lane.Sha256BlockCount(|m|));
    Streaming.PaddedSplits(m);
  }

  /** So the lane digest is what streaming the same blocks gives. */
  lemma {:induction false} DigestsAgree(m: seq<Byte>)
    requires |m| < TWO_61
    ensures Lane.LaneSha256(m)
         == StateBytes(Fold(Fold(H0, Streaming.FullBlocks(m)), Streaming.FinalBlocks(Streaming.Tail(m), 8 * |m|)))
    ensures Lane.LaneSha256(m) == Sha256(m)
  {
    hide Fold, StateBytes, Padded;
    Lane.LaneSha256IsSha256(m);
    Streaming.FinalBlocksFold(m);
  }
}
