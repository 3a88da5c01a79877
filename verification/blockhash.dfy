/**
 * blockhash.hpp and the padding of sha1.hpp: `Block_hash<Sha1_state>`, the
 * streaming SHA-1 object (`crypto::Sha1`). It keeps the chaining state, a
 * 64-bit byte count and the bytes of the incomplete last block, and is proved
 * to compute the digest of FIPS 180-4 over everything it was fed.
 */
module BlockHash {
  import opened Util
  import opened Wrappers
  import opened Sha1

  /**
   * A `Block_hash`: `state`, `count` and the pending bytes of `buffer` (its
   * first `count % BLOCK_LENGTH` bytes; the rest of the array is never read).
   */
  datatype Hasher = Hasher(state: State, count: nat, pending: Bytes)

  /** `count` fits its `unsigned long long` and the buffer holds exactly the incomplete block. */
  predicate Valid(h: Hasher) {
    h.count < TWO_TO_64 && |h.pending| == h.count % BLOCK_LENGTH
  }

  /** `Block_hash()`: the initial SHA-1 state, nothing counted. */
  function New(): (h: Hasher)
    ensures Valid(h)
  {
    Hasher(H0, 0, [])
  }

  /** The whole blocks at the front of `data`: the length `update` consumes from it. */
  function Aligned(n: nat): (a: nat)
    ensures a <= n && a % BLOCK_LENGTH == 0 && n - a < BLOCK_LENGTH
  {
    n - n % BLOCK_LENGTH
  }

  /**
   * `update(data, len)`: refuses (with `std::overflow_error`) when the count
   * would wrap; otherwise completes the pending block if `data` reaches its end,
   * transforms every further whole block and buffers the rest.
   */
  function Update(t: Compressor, h: Hasher, data: Bytes): (r: Result<Hasher>)
    requires Valid(h)
    ensures r.Success? <==> h.count + |data| < TWO_TO_64
    ensures r.Success? ==> Valid(r.value) && r.value.count == h.count + |data|
  {
    var pendingLen := h.count % BLOCK_LENGTH;
    var remainingLen := BLOCK_LENGTH - pendingLen;
    if h.count + |data| >= TWO_TO_64 then
      Failure("crypto::Block_hash::update")
    else if |data| >= remainingLen then
      var state := t(h.state, h.pending + data[..remainingLen]);
      var rest := data[remainingLen..];
      var whole := Aligned(|rest|);
      ModAfterBlock(h.count, remainingLen, |rest|);
      Success(Hasher(HashBlocks(t, state, rest[..whole]), h.count + |data|, rest[whole..]))
    else
      ModWithinBlock(h.count, |data|);
      Success(Hasher(h.state, h.count + |data|, h.pending + data))
  }

  lemma ModAfterBlock(c: nat, rem: nat, n: nat)
    requires rem == BLOCK_LENGTH - c % BLOCK_LENGTH
    ensures (c + rem + n) % BLOCK_LENGTH == n % BLOCK_LENGTH
  {
    assert c + rem == (c / BLOCK_LENGTH + 1) * BLOCK_LENGTH;
    MulMod(c / BLOCK_LENGTH + 1, n);
  }

  lemma AlignedAfterBlock(c: nat, rem: nat, n: nat)
    requires rem == BLOCK_LENGTH - c % BLOCK_LENGTH
    ensures Aligned(c + rem + n) == Aligned(c) + BLOCK_LENGTH + Aligned(n)
  {
    ModAfterBlock(c, rem, n);
  }

  lemma MulMod(k: nat, n: nat)
    ensures (k * BLOCK_LENGTH + n) % BLOCK_LENGTH == n % BLOCK_LENGTH
  {
  }

  lemma ModWithinBlock(c: nat, n: nat)
    requires c % BLOCK_LENGTH + n < BLOCK_LENGTH
    ensures (c + n) % BLOCK_LENGTH == c % BLOCK_LENGTH + n
  {
    assert c == c / BLOCK_LENGTH * BLOCK_LENGTH + c % BLOCK_LENGTH;
    MulMod(c / BLOCK_LENGTH, c % BLOCK_LENGTH + n);
  }

  /**
   * The hasher is the FIPS 180-4 computation over message `m` so far: `m` was
   * counted, its whole blocks are folded into the state and the rest is pending.
   */
  ghost predicate Absorbed(t: Compressor, h: Hasher, m: Bytes) {
    |m| < TWO_TO_64
    && h.count == |m|
    && h.pending == m[Aligned(|m|)..]
    && h.state == HashBlocks(t, H0, m[..Aligned(|m|)])
  }

  lemma NewAbsorbsNothing(t: Compressor)
    ensures Absorbed(t, New(), [])
  {
    assert HashBlocks(t, H0, []) == H0;
  }

  /** A fresh hasher fed `data` has absorbed exactly `data`. */
  lemma FreshAbsorbs(t: Compressor, data: Bytes)
    requires |data| < TWO_TO_64
    ensures Update(t, New(), data).Success?
    ensures Absorbed(t, Update(t, New(), data).value, data)
  {
    NewAbsorbsNothing(t);
    UpdateAbsorbs(t, New(), [], data);
    assert [] + data == data;
  }

  /** Hashing `a + b` block by block is hashing `a`, then `b`. */
  lemma {:induction false} HashBlocksAppend(t: Compressor, h: State, a: Bytes, b: Bytes)
    requires |a| % BLOCK_LENGTH == 0 && |b| % BLOCK_LENGTH == 0
    ensures HashBlocks(t, h, a + b) == HashBlocks(t, HashBlocks(t, h, a), b)
    decreases |a|
  {
    if |a| == 0 {
      assert a + b == b;
    } else {
      assert (a + b)[..BLOCK_LENGTH] == a[..BLOCK_LENGTH];
      assert (a + b)[BLOCK_LENGTH..] == a[BLOCK_LENGTH..] + b;
      HashBlocksAppend(t, t(h, a[..BLOCK_LENGTH]), a[BLOCK_LENGTH..], b);
    }
  }

  /** One block on its own is one compression. */
  lemma HashOneBlock(t: Compressor, h: State, block: Bytes)
    requires |block| == BLOCK_LENGTH
    ensures HashBlocks(t, h, block) == t(h, block)
  {
    assert block[..BLOCK_LENGTH] == block;
    assert block[BLOCK_LENGTH..] == [];
  }

  /** `update` keeps the hasher equal to the standard's computation over the longer message. */
  lemma UpdateAbsorbs(t: Compressor, h: Hasher, m: Bytes, data: Bytes)
    requires Valid(h) && Absorbed(t, h, m)
    requires Update(t, h, data).Success?
    ensures Absorbed(t, Update(t, h, data).value, m + data)
  {
    if |data| >= BLOCK_LENGTH - |m| % BLOCK_LENGTH {
      CrossingAbsorbs(t, h, m, data);
    } else {
      var q := Aligned(|m|);
      ModWithinBlock(|m|, |data|);
      assert Aligned(|m + data|) == q;
      assert (m + data)[..q] == m[..q];
      assert (m + data)[q..] == h.pending + data;
    }
  }

  /** The case of `update` that completes the buffered block. */
  lemma CrossingAbsorbs(t: Compressor, h: Hasher, m: Bytes, data: Bytes)
    requires Valid(h) && Absorbed(t, h, m)
    requires |m| + |data| < TWO_TO_64
    requires |data| >= BLOCK_LENGTH - |m| % BLOCK_LENGTH
    ensures Absorbed(t, Update(t, h, data).value, m + data)
  {
    var q := Aligned(|m|);
    var rem := BLOCK_LENGTH - |m| % BLOCK_LENGTH;
    var block := h.pending + data[..rem];
    var rest := data[rem..];
    var a := Aligned(|rest|);
    AlignedAfterBlock(|m|, rem, |rest|);
    CrossingSlices(m, data, q, rem, a);
    HashBlocksAround(t, m[..q], block, rest[..a]);
  }

  /** A block between two runs of whole blocks is one compression between the two chains. */
  lemma HashBlocksAround(t: Compressor, x: Bytes, block: Bytes, y: Bytes)
    requires |x| % BLOCK_LENGTH == 0 && |block| == BLOCK_LENGTH && |y| % BLOCK_LENGTH == 0
    ensures HashBlocks(t, H0, x + block + y) == HashBlocks(t, t(HashBlocks(t, H0, x), block), y)
  {
    var hx := HashBlocks(t, H0, x);
    var xb := x + block;
    MulMod(1, |x|);
    HashBlocksAppend(t, H0, x, block);
    HashOneBlock(t, hx, block);
    assert HashBlocks(t, H0, xb) == t(hx, block);
    HashBlocksAppend(t, H0, xb, y);
  }

  /** How `m + data` splits when `data` completes the block `m` left open. */
  lemma CrossingSlices(m: Bytes, data: Bytes, q: nat, rem: nat, a: nat)
    requires q <= |m| && q + BLOCK_LENGTH == |m| + rem && rem <= |data| && a <= |data| - rem
    ensures (m + data)[..q + BLOCK_LENGTH + a] == m[..q] + (m[q..] + data[..rem]) + data[rem..][..a]
    ensures (m + data)[q + BLOCK_LENGTH + a..] == data[rem..][a..]
  {
  }

  /** Two hashers that absorbed the same message are the same hasher. */
  lemma AbsorbedUnique(t: Compressor, h1: Hasher, h2: Hasher, m: Bytes)
    requires Absorbed(t, h1, m) && Absorbed(t, h2, m)
    ensures h1 == h2
  {
  }

  /** Feeding `a` then `b` leaves the same hasher as feeding `a + b` at once. */
  lemma UpdateConcat(t: Compressor, h: Hasher, m: Bytes, a: Bytes, b: Bytes)
    requires Valid(h) && Absorbed(t, h, m)
    requires Update(t, h, a).Success?
    ensures Update(t, Update(t, h, a).value, b).Success? <==> Update(t, h, a + b).Success?
    ensures Update(t, h, a + b).Success? ==> Update(t, Update(t, h, a).value, b) == Update(t, h, a + b)
  {
    var h1 := Update(t, h, a).value;
    UpdateAbsorbs(t, h, m, a);
    if Update(t, h, a + b).Success? {
      UpdateAbsorbs(t, h1, m + a, b);
      UpdateAbsorbs(t, h, m, a + b);
      assert m + a + b == m + (a + b);
      AbsorbedUnique(t, Update(t, h1, b).value, Update(t, h, a + b).value, m + (a + b));
    }
  }

  // ---------------------------------------------------------------------------
  // Sha1_state::pad

  /** How many zero bytes take a count of `c` to 56 modulo 64. */
  function ZerosToGo(c: nat): (k: nat)
    ensures k < BLOCK_LENGTH
    ensures k == 0 <==> c % BLOCK_LENGTH == 56
  {
    (56 - c % BLOCK_LENGTH + BLOCK_LENGTH) % BLOCK_LENGTH
  }

  /** The `while (hash.get_count() % 64 != 56)` loop of `pad`: one zero byte at a time. */
  function PadZeros(t: Compressor, h: Hasher): (r: Result<Hasher>)
    requires Valid(h)
    ensures r.Success? ==> Valid(r.value) && r.value.count % BLOCK_LENGTH == 56
    decreases ZerosToGo(h.count)
  {
    if h.count % BLOCK_LENGTH == 56 then
      Success(h)
    else
      var h' :- Update(t, h, [0]);
      ZeroPadStep(h.count);
      PadZeros(t, h')
  }

  lemma ZeroPadStep(c: nat)
    requires c % BLOCK_LENGTH != 56
    ensures ZerosToGo(c + 1) == ZerosToGo(c) - 1
  {
    if c % BLOCK_LENGTH == 63 {
      ModAfterBlock(c, 1, 0);
    } else {
      ModWithinBlock(c, 1);
    }
  }

  /**
   * `Sha1_state::pad(hash)`: the 64-bit length field is taken first (`count << 3`,
   * which wraps modulo 2^64), then 0x80, zeros up to 56 mod 64, and the field.
   */
  function Pad(t: Compressor, h: Hasher): (r: Result<Hasher>)
    requires Valid(h)
    ensures r.Success? ==> Valid(r.value) && r.value.count % BLOCK_LENGTH == 0
  {
    var lengthPad := LengthField((h.count * 8) % TWO_TO_64);
    var h1 :- Update(t, h, [0x80]);
    var h2 :- PadZeros(t, h1);
    var h3 :- Update(t, h2, lengthPad);
    ModAfterBlock(h2.count, 8, 0);
    Success(h3)
  }

  /** The zero loop appends exactly enough zero bytes to reach 56 modulo 64. */
  lemma {:induction false} PadZerosAbsorbs(t: Compressor, h: Hasher, m: Bytes)
    requires Valid(h) && Absorbed(t, h, m)
    requires |m| + ZerosToGo(|m|) < TWO_TO_64
    ensures PadZeros(t, h).Success?
    ensures Absorbed(t, PadZeros(t, h).value, m + Zeros(ZerosToGo(|m|)))
    decreases ZerosToGo(h.count)
  {
    if h.count % BLOCK_LENGTH == 56 {
      assert m + Zeros(0) == m;
    } else {
      var h' := Update(t, h, [0]).value;
      UpdateAbsorbs(t, h, m, [0]);
      ZeroPadStep(h.count);
      PadZerosAbsorbs(t, h', m + [0]);
      assert m + [0] + Zeros(ZerosToGo(|m| + 1)) == m + Zeros(ZerosToGo(|m|));
    }
  }

  /** The zeros the loop appends after the 0x80 byte are the k of FIPS 180-4 section 5.1.1. */
  lemma ZerosAfterMarker(n: nat)
    ensures ZerosToGo(n + 1) == ZeroPadLength(n)
  {
    if n % BLOCK_LENGTH == 63 {
      ModAfterBlock(n, 1, 0);
    } else {
      ModWithinBlock(n, 1);
    }
  }

  /** `pad` appends exactly the padding of FIPS 180-4 section 5.1.1. */
  lemma PadAbsorbs(t: Compressor, h: Hasher, m: Bytes)
    requires Valid(h) && Absorbed(t, h, m)
    requires |m| * 8 < TWO_TO_64
    ensures Pad(t, h).Success?
    ensures Absorbed(t, Pad(t, h).value, FipsPad(m))
  {
    assert (h.count * 8) % TWO_TO_64 == |m| * 8;
    UpdateAbsorbs(t, h, m, [0x80]);
    PadTailAbsorbs(t, Update(t, h, [0x80]).value, m);
  }

  /** After the 0x80 byte: the zeros, then the length field, complete the padded message. */
  lemma PadTailAbsorbs(t: Compressor, h1: Hasher, m: Bytes)
    requires Valid(h1) && Absorbed(t, h1, m + [0x80])
    requires |m| * 8 < TWO_TO_64
    ensures PadZeros(t, h1).Success?
    ensures Update(t, PadZeros(t, h1).value, LengthField(|m| * 8)).Success?
    ensures Absorbed(t, Update(t, PadZeros(t, h1).value, LengthField(|m| * 8)).value, FipsPad(m))
  {
    var m1 := m + [0x80];
    ZerosAfterMarker(|m|);
    PadZerosAbsorbs(t, h1, m1);
    var h2 := PadZeros(t, h1).value;
    var m2 := m1 + Zeros(ZeroPadLength(|m|));
    UpdateAbsorbs(t, h2, m2, LengthField(|m| * 8));
    assert m2 + LengthField(|m| * 8) == FipsPad(m);
  }

  /** `finish(out, out_len)`: pad, then `state.write(out, out_len)`. */
  function Finish(t: Compressor, h: Hasher, out: Option<Bytes>, outLen: nat): (r: Result<Option<Bytes>>)
    requires Valid(h)
    requires out.Some? ==> |out.value| >= Min(outLen, LENGTH)
    ensures r.Success? ==> (r.value.Some? <==> out.Some?)
    ensures r.Success? && out.Some? ==> |r.value.value| == |out.value|
  {
    var h' :- Pad(t, h);
    Success(Write(h'.state, out, outLen))
  }

  /** `Block_hash::compute(out, out_len, data, data_len)`: a fresh hasher, one update, finish. */
  function Compute(t: Compressor, out: Option<Bytes>, outLen: nat, data: Bytes): (r: Result<Option<Bytes>>)
    requires out.Some? ==> |out.value| >= Min(outLen, LENGTH)
    ensures r.Success? ==> (r.value.Some? <==> out.Some?)
    ensures r.Success? && out.Some? ==> |r.value.value| == |out.value|
  {
    var h :- Update(t, New(), data);
    Finish(t, h, out, outLen)
  }

  /** The FIPS 180-4 digest of `m` computed with `t` as the compression function. */
  function HashOf(t: Compressor, m: Bytes): (d: Bytes)
    requires |m| * 8 < TWO_TO_64
    ensures |d| == LENGTH
  {
    Digest(HashBlocks(t, H0, FipsPad(m)))
  }

  /** Once a hasher has absorbed `m`, `finish` writes the digest of the padded `m`. */
  lemma FinishHashesPadded(t: Compressor, h: Hasher, m: Bytes, out: Option<Bytes>, outLen: nat)
    requires Valid(h) && Absorbed(t, h, m)
    requires out.Some? ==> |out.value| >= Min(outLen, LENGTH)
    requires |m| * 8 < TWO_TO_64
    ensures Finish(t, h, out, outLen) == Success(Write(HashBlocks(t, H0, FipsPad(m)), out, outLen))
  {
    PadAbsorbs(t, h, m);
    var p := FipsPad(m);
    assert p[..Aligned(|p|)] == p;
  }

  /**
   * For every message shorter than 2^64 bits, `compute` writes the first
   * `out_len` bytes of the digest the block loop of `t` gives on the padded message.
   */
  lemma ComputeHashesPadded(t: Compressor, out: Option<Bytes>, outLen: nat, data: Bytes)
    requires out.Some? ==> |out.value| >= Min(outLen, LENGTH)
    requires |data| * 8 < TWO_TO_64
    ensures Compute(t, out, outLen, data) == Success(Write(HashBlocks(t, H0, FipsPad(data)), out, outLen))
  {
    FreshAbsorbs(t, data);
    FinishHashesPadded(t, Update(t, New(), data).value, data, out, outLen);
  }

  /** A 20-byte output buffer receives exactly the digest. */
  lemma WriteWholeDigest(state: State)
    ensures Write(state, Some(Zeros(LENGTH)), LENGTH) == Some(Digest(state))
  {
    var d := Digest(state);
    assert d[..LENGTH] + Zeros(LENGTH)[LENGTH..] == d;
  }
}
