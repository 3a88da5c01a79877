/**
 * `crypto::Sha1` (sha1.hpp): `Block_hash` instantiated with
 * `Sha1_state::transform`, proved to be the FIPS 180-4 SHA-1 digest.
 */
module Sha1Hash {
  import opened Util
  import opened Wrappers
  import opened Sha1
  import opened BlockHash

  /**
   * `Sha1_state::transform` as the compressor of `Block_hash`; the local
   * `blocks` ring of `transform` starts uninitialised and every entry is
   * written before it is read, so its start value is immaterial.
   */
  function Sha1Transform(state: State, block: Bytes): State {
    if |block| == BLOCK_LENGTH then Transform(state, block, [0, 0, 0, 0, 0, 0, 0, 0, 0, 0, 0, 0, 0, 0, 0, 0]) else state
  }

  /** `crypto::Sha1::compute`. */
  function Sha1Compute(out: Option<Bytes>, outLen: nat, data: Bytes): Result<Option<Bytes>>
    requires out.Some? ==> |out.value| >= Min(outLen, LENGTH)
  {
    Compute(Sha1Transform, out, outLen, data)
  }

  lemma Sha1TransformIsFipsBlock()
    ensures forall s: State, b: Bytes | |b| == BLOCK_LENGTH :: Sha1Transform(s, b) == FipsBlock(s, b)
  {
    forall s: State, b: Bytes | |b| == BLOCK_LENGTH
      ensures Sha1Transform(s, b) == FipsBlock(s, b)
    {
      TransformIsFipsCompress(s, b, [0, 0, 0, 0, 0, 0, 0, 0, 0, 0, 0, 0, 0, 0, 0, 0]);
    }
  }

  /**
   * For every message the standard can hash (shorter than 2^64 bits),
   * `Sha1::compute` writes the first `out_len` bytes of its FIPS 180-4 digest.
   */
  lemma Sha1ComputeIsFips(out: Option<Bytes>, outLen: nat, data: Bytes)
    requires out.Some? ==> |out.value| >= Min(outLen, LENGTH)
    requires |data| * 8 < TWO_TO_64
    ensures Sha1Compute(out, outLen, data) == Success(Write(FipsHashBlocks(H0, FipsPad(data)), out, outLen))
  {
    ComputeHashesPadded(Sha1Transform, out, outLen, data);
    Sha1TransformIsFipsBlock();
    HashBlocksAgree(Sha1Transform, FipsBlock, H0, FipsPad(data));
  }

  /** With a 20-byte output, `Sha1::compute` yields exactly the FIPS 180-4 SHA-1 digest. */
  lemma Sha1Digest(data: Bytes)
    requires |data| * 8 < TWO_TO_64
    ensures Sha1Compute(Some(Zeros(LENGTH)), LENGTH, data) == Success(Some(FipsSha1(data)))
  {
    Sha1ComputeIsFips(Some(Zeros(LENGTH)), LENGTH, data);
    WriteWholeDigest(FipsHashBlocks(H0, FipsPad(data)));
  }

  /** The digest `Block_hash` computes with `Sha1_state::transform` is FIPS 180-4 SHA-1. */
  lemma HashOfSha1IsFips(m: Bytes)
    requires |m| * 8 < TWO_TO_64
    ensures HashOf(Sha1Transform, m) == HashOf(FipsBlock, m) == FipsSha1(m)
  {
    Sha1TransformIsFipsBlock();
    HashBlocksAgree(Sha1Transform, FipsBlock, H0, FipsPad(m));
  }
}
