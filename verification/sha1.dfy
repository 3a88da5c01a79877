/**
 * sha1.hpp / sha1.cpp: the SHA-1 compression state `Sha1_state` of FIPS 180-4,
 * written the way the source computes it (five registers whose roles rotate
 * from round to round, a 16-entry ring for the message schedule) and proved
 * equal to the standard's own formulation (sections 4.1.1, 4.2.1, 5.3.1, 6.1.2).
 */
module Sha1 {
  import opened Util
  import opened Wrappers

  /** Digest length in bytes. */
  const LENGTH: nat := 20
  /** Block length in bytes. */
  const BLOCK_LENGTH: nat := 64

  type Word = bv32
  type State = s: seq<Word> | |s| == 5 witness [0, 0, 0, 0, 0]

  /** `Sha1_state()`: the initial hash value H(0) of FIPS 180-4 section 5.3.1. */
  const H0: State := [0x67452301, 0xEFCDAB89, 0x98BADCFE, 0x10325476, 0xC3D2E1F0]

  /**
   * `LOAD_BE32(p + 4 * k)`: word `k` of `b`, most significant byte first. The
   * shifts by 24, 16 and 8 bits are written as multiplications by 2^24, 2^16 and 2^8.
   */
  function LoadBe32(b: Bytes, k: nat): Word
    requires 4 * k + 4 <= |b|
  {
    Be32(b[4 * k], b[4 * k + 1], b[4 * k + 2], b[4 * k + 3])
  }

  /** The word whose big-endian bytes are `b0 b1 b2 b3`. */
  function Be32(b0: byte, b1: byte, b2: byte, b3: byte): Word {
    (b0 as Word * 0x100_0000) | (b1 as Word * 0x1_0000) | (b2 as Word * 0x100) | (b3 as Word)
  }

  // `ROL(value, bits)`, `(value << bits) | (value >> (32 - bits))`, is a left
  // rotation; it is only ever used with 1, 5 and 30 bits.

  /** `ROL(value, 1)`. */
  function Rol1(x: Word): Word {
    x.RotateLeft(1)
  }

  /** `ROL(value, 5)`. */
  function Rol5(x: Word): Word {
    x.RotateLeft(5)
  }

  /** `ROL(value, 30)`. */
  function Rol30(x: Word): Word {
    x.RotateLeft(30)
  }

  // ---------------------------------------------------------------------------
  // FIPS 180-4: the reference definition

  /** Ch, Parity and Maj of FIPS 180-4 section 4.1.1, for round `t`. */
  function FipsF(t: nat, x: Word, y: Word, z: Word): Word
    requires t < 80
  {
    if t < 20 then (x & y) ^ (!x & z)
    else if t < 40 then x ^ y ^ z
    else if t < 60 then (x & y) ^ (x & z) ^ (y & z)
    else x ^ y ^ z
  }

  /** The round constant K_t of FIPS 180-4 section 4.2.1. */
  function K(t: nat): Word
    requires t < 80
  {
    if t < 20 then 0x5A827999
    else if t < 40 then 0x6ED9EBA1
    else if t < 60 then 0x8F1BBCDC
    else 0xCA62C1D6
  }

  /** The message schedule W_t of FIPS 180-4 section 6.1.2, step 1. */
  function W(block: Bytes, t: nat): Word
    requires |block| == BLOCK_LENGTH
    decreases t
  {
    if t < 16 then LoadBe32(block, t)
    else Rol1(W(block, t - 3) ^ W(block, t - 8) ^ W(block, t - 14) ^ W(block, t - 16))
  }

  /** The working variables a, b, c, d, e. */
  datatype Regs = Regs(a: Word, b: Word, c: Word, d: Word, e: Word)

  /** One iteration of FIPS 180-4 section 6.1.2, step 3. */
  function FipsStep(s: Regs, t: nat, wt: Word): Regs
    requires t < 80
  {
    Regs(FipsTemp(s, t, wt), s.a, Rol30(s.b), s.c, s.d)
  }

  /** T = ROTL^5(a) + f_t(b, c, d) + e + K_t + W_t. */
  function FipsTemp(s: Regs, t: nat, wt: Word): Word
    requires t < 80
  {
    Add5(Rol5(s.a), FipsF(t, s.b, s.c, s.d), s.e, K(t), wt)
  }

  /** A five-term sum modulo 2^32, in the order written. */
  function Add5(a: Word, b: Word, c: Word, d: Word, e: Word): Word {
    a + b + c + d + e
  }

  function FipsRounds(s: Regs, block: Bytes, t: nat): Regs
    requires |block| == BLOCK_LENGTH && t <= 80
    decreases 80 - t
  {
    if t == 80 then s else FipsRounds(FipsStep(s, t, W(block, t)), block, t + 1)
  }

  /** FIPS 180-4 section 6.1.2 for one block: steps 2 to 4. */
  function FipsCompress(h: State, block: Bytes): State
    requires |block| == BLOCK_LENGTH
  {
    AddRegs(h, FipsRounds(Regs(h[0], h[1], h[2], h[3], h[4]), block, 0))
  }

  /** H_k := H_k + the k-th working variable, each modulo 2^32. */
  function AddRegs(h: State, s: Regs): State {
    [h[0] + s.a, h[1] + s.b, h[2] + s.c, h[3] + s.d, h[4] + s.e]
  }

  /** A compression function: the next chaining state from the current one and a 64-byte block. */
  type Compressor = (State, Bytes) -> State

  /** The block loop of FIPS 180-4 section 6.1.2: compress each 64-byte block M(i) of `m` in turn. */
  function HashBlocks(f: Compressor, h: State, m: Bytes): State
    requires |m| % BLOCK_LENGTH == 0
    decreases |m|
  {
    if |m| == 0 then h else HashBlocks(f, f(h, m[..BLOCK_LENGTH]), m[BLOCK_LENGTH..])
  }

  /** Compressors that agree on every block drive the block loop to the same state. */
  lemma {:induction false} HashBlocksAgree(f: Compressor, g: Compressor, h: State, m: Bytes)
    requires forall s: State, b: Bytes | |b| == BLOCK_LENGTH :: f(s, b) == g(s, b)
    requires |m| % BLOCK_LENGTH == 0
    ensures HashBlocks(f, h, m) == HashBlocks(g, h, m)
    decreases |m|
  {
    if |m| > 0 {
      HashBlocksAgree(f, g, f(h, m[..BLOCK_LENGTH]), m[BLOCK_LENGTH..]);
    }
  }

  /** `FipsCompress` made total; the block loop only ever passes 64-byte blocks. */
  function FipsBlock(h: State, block: Bytes): State {
    if |block| == BLOCK_LENGTH then FipsCompress(h, block) else h
  }

  /** FIPS 180-4 section 6.1.2: H(N) after all blocks of a padded message. */
  function FipsHashBlocks(h: State, m: Bytes): State
    requires |m| % BLOCK_LENGTH == 0
  {
    HashBlocks(FipsBlock, h, m)
  }

  /** The k of FIPS 180-4 section 5.1.1 counted in bytes: the fewest zero bytes after 0x80 that reach 56 mod 64. */
  function ZeroPadLength(n: nat): (k: nat)
    ensures k < BLOCK_LENGTH
    ensures (n + 1 + k) % BLOCK_LENGTH == 56
  {
    if n % 64 <= 55 then 55 - n % 64 else 119 - n % 64
  }

  /**
   * FIPS 180-4 section 5.1.1: the message, the byte 0x80, k zero bytes and the
   * message length in bits as a 64-bit big-endian number. The standard only
   * hashes messages shorter than 2^64 bits.
   */
  function FipsPad(m: Bytes): (r: Bytes)
    requires |m| * 8 < TWO_TO_64
    ensures |r| % BLOCK_LENGTH == 0
    ensures m <= r
  {
    var k := ZeroPadLength(|m|);
    var padded := m + [0x80] + Zeros(k);
    PaddedLength(|padded|);
    padded + LengthField(|m| * 8)
  }

  /** A bit count as the 64-bit big-endian field that ends the padding. */
  function LengthField(bits: nat): (r: Bytes)
    requires bits < TWO_TO_64
    ensures |r| == 8
  {
    StoreBe64(Zeros(8), bits as bv64)
  }

  lemma PaddedLength(n: nat)
    requires n % BLOCK_LENGTH == 56
    ensures (n + 8) % BLOCK_LENGTH == 0
  {
  }

  /** The SHA-1 message digest of FIPS 180-4 sections 6.1.1 and 6.1.2. */
  function FipsSha1(m: Bytes): Bytes
    requires |m| * 8 < TWO_TO_64
  {
    Digest(FipsHashBlocks(H0, FipsPad(m)))
  }

  // ---------------------------------------------------------------------------
  // sha1.cpp as written

  /** The function argument of `R1A`/`R1B`, `R2`, `R3` and `R4` for round `t`. */
  function SourceF(t: nat, w: Word, x: Word, y: Word): Word
    requires t < 80
  {
    if t < 20 then (w & (x ^ y)) ^ y
    else if t < 40 then w ^ x ^ y
    else if t < 60 then ((w | x) & y) | (w & x)
    else w ^ x ^ y
  }

  /** Rounds 0-19: `(w & (x ^ y)) ^ y` is Ch. */
  lemma ChoiceAgrees(t: nat, x: Word, y: Word, z: Word)
    requires t < 20
    ensures SourceF(t, x, y, z) == FipsF(t, x, y, z)
  {
    assert (x & (y ^ z)) ^ z == (x & y) ^ (!x & z);
  }

  /** Rounds 40-59: `((w | x) & y) | (w & x)` is Maj. */
  lemma MajorityAgrees(t: nat, x: Word, y: Word, z: Word)
    requires 40 <= t < 60
    ensures SourceF(t, x, y, z) == FipsF(t, x, y, z)
  {
    assert ((x | y) & z) | (x & y) == (x & y) ^ (x & z) ^ (y & z);
  }

  /** The source's round functions are the standard's Ch, Parity and Maj. */
  lemma SourceFIsFipsF(t: nat, x: Word, y: Word, z: Word)
    requires t < 80
    ensures SourceF(t, x, y, z) == FipsF(t, x, y, z)
  {
    if t < 20 {
      ChoiceAgrees(t, x, y, z);
    } else if t < 40 {
    } else if t < 60 {
      MajorityAgrees(t, x, y, z);
    }
  }

  /**
   * The register (0 = a, ..., 4 = e) that plays role `k` (0 = v, ..., 4 = z) of
   * `DO_ROUND` in round `i`: the call sites rotate (a,b,c,d,e), (e,a,b,c,d), ...
   */
  function Role(i: nat, k: nat): (r: nat)
    requires k < 5
    ensures r < 5
  {
    var o := i % 5;
    if k >= o then k - o else k + 5 - o
  }

  /** `SRC_BUFFER(i)` for i < 16, else `SRC_BLOCKS(i)` read from the ring `blocks`. */
  function ScheduleWord(ring: seq<Word>, block: Bytes, i: nat): Word
    requires |ring| == 16 && |block| == BLOCK_LENGTH
  {
    if i < 16 then LoadBe32(block, i)
    else Rol1(ring[(i + 13) % 16] ^ ring[(i + 8) % 16] ^ ring[(i + 2) % 16] ^ ring[i % 16])
  }

  /** `DO_ROUND(v, w, x, y, z, i, ...)` on the registers `r`, with `wi` = `BLK(i)`. */
  function DoRound(r: seq<Word>, i: nat, wi: Word): seq<Word>
    requires |r| == 5 && i < 80
  {
    r[Role(i, 4) := RoundSum(r, i, wi)][Role(i, 1) := Rol30(r[Role(i, 1)])]
  }

  /** `z += (function) + BLK(i) + constant + ROL(v, 5)`. */
  function RoundSum(r: seq<Word>, i: nat, wi: Word): Word
    requires |r| == 5 && i < 80
  {
    RoundValue(r[Role(i, 0)], r[Role(i, 1)], r[Role(i, 2)], r[Role(i, 3)], r[Role(i, 4)], i, wi)
  }

  function RoundValue(v: Word, w: Word, x: Word, y: Word, z: Word, i: nat, wi: Word): Word
    requires i < 80
  {
    Add5(z, SourceF(i, w, x, y), wi, K(i), Rol5(v))
  }

  /** Rounds `i` .. 79 of `transform`, each storing its schedule word in `blocks[i & 15]`. */
  function Rounds(r: seq<Word>, ring: seq<Word>, block: Bytes, i: nat): (out: seq<Word>)
    requires |r| == 5 && |ring| == 16 && |block| == BLOCK_LENGTH && i <= 80
    ensures |out| == 5
    decreases 80 - i
  {
    if i == 80 then r
    else
      var wi := ScheduleWord(ring, block, i);
      Rounds(DoRound(r, i, wi), ring[i % 16 := wi], block, i + 1)
  }

  /**
   * `Sha1_state::transform`: 80 rounds from the current state, then each
   * register is added into `state` modulo 2^32. The ring starts uninitialised
   * in the source; every entry is written before it is read, so its start
   * value is a parameter here.
   */
  function Transform(state: State, block: Bytes, ring: seq<Word>): (r: State)
    requires |block| == BLOCK_LENGTH && |ring| == 16
  {
    var regs := Rounds(state, ring, block, 0);
    AddRegs(state, Regs(regs[0], regs[1], regs[2], regs[3], regs[4]))
  }

  /** `transform` computes the standard's compression function, whatever the ring held. */
  lemma TransformIsFipsCompress(state: State, block: Bytes, ring: seq<Word>)
    requires |block| == BLOCK_LENGTH && |ring| == 16
    ensures Transform(state, block, ring) == FipsCompress(state, block)
  {
    var regs := Rounds(state, ring, block, 0);
    ViewAtMultipleOfFive(state, 0);
    ViewAtMultipleOfFive(regs, 80);
    RoundsAreFipsRounds(state, ring, block, 0);
  }

  /** Every fifth round the roles coincide with the register names again. */
  lemma ViewAtMultipleOfFive(r: seq<Word>, i: nat)
    requires |r| == 5 && i % 5 == 0
    ensures View(r, i) == Regs(r[0], r[1], r[2], r[3], r[4])
  {
  }

  /** The standard's registers as seen through the roles of round `i`. */
  function View(r: seq<Word>, i: nat): Regs
    requires |r| == 5
  {
    Regs(r[Role(i, 0)], r[Role(i, 1)], r[Role(i, 2)], r[Role(i, 3)], r[Role(i, 4)])
  }

  lemma Add5Reorder(a: Word, b: Word, c: Word, d: Word, e: Word)
    ensures Add5(c, b, e, d, a) == Add5(a, b, c, d, e)
  {
  }

  /** The ring holds W_j for the last (up to) 16 rounds before round `i`. */
  ghost predicate RingHolds(ring: seq<Word>, block: Bytes, i: nat)
    requires |ring| == 16 && |block| == BLOCK_LENGTH
  {
    forall j: nat | j < i && i <= j + 16 :: ring[j % 16] == W(block, j)
  }

  /** The roles of round `i + 1` are those of round `i` moved on by one, and distinct. */
  lemma RoleFacts(i: nat)
    ensures Role(i + 1, 0) == Role(i, 4) && Role(i + 1, 1) == Role(i, 0) && Role(i + 1, 2) == Role(i, 1)
    ensures Role(i + 1, 3) == Role(i, 2) && Role(i + 1, 4) == Role(i, 3)
    ensures forall j, k | 0 <= j < k < 5 :: Role(i, j) != Role(i, k)
  {
    var m := i % 5;
    assert (i + 1) % 5 == if m == 4 then 0 else m + 1;
  }

  /** One source round is one FIPS step, once the roles are renamed. */
  lemma {:induction false} DoRoundIsFipsStep(r: seq<Word>, i: nat, wi: Word)
    requires |r| == 5 && i < 80
    ensures View(DoRound(r, i, wi), i + 1) == FipsStep(View(r, i), i, wi)
  {
    RoundSumIsFipsTemp(r, i, wi);
    RoleFacts(i);
  }

  lemma RoundSumIsFipsTemp(r: seq<Word>, i: nat, wi: Word)
    requires |r| == 5 && i < 80
    ensures RoundSum(r, i, wi) == FipsTemp(View(r, i), i, wi)
  {
    RoundValueIsFipsTemp(r[Role(i, 0)], r[Role(i, 1)], r[Role(i, 2)], r[Role(i, 3)], r[Role(i, 4)], i, wi);
  }

  lemma RoundValueIsFipsTemp(v: Word, w: Word, x: Word, y: Word, z: Word, i: nat, wi: Word)
    requires i < 80
    ensures RoundValue(v, w, x, y, z, i, wi) == FipsTemp(Regs(v, w, x, y, z), i, wi)
  {
    SourceFIsFipsF(i, w, x, y);
    Add5Reorder(Rol5(v), SourceF(i, w, x, y), z, K(i), wi);
  }

  lemma ModStep(i: nat, j: nat)
    requires j < i < j + 16
    ensures j % 16 != i % 16
  {
  }

  /** The ring entry `SRC_BLOCKS` reads is the standard's W_t. */
  lemma {:induction false} ScheduleWordIsW(ring: seq<Word>, block: Bytes, i: nat)
    requires |ring| == 16 && |block| == BLOCK_LENGTH
    requires RingHolds(ring, block, i)
    ensures ScheduleWord(ring, block, i) == W(block, i)
  {
    if i >= 16 {
      assert (i + 13) % 16 == (i - 3) % 16;
      assert (i + 8) % 16 == (i - 8) % 16;
      assert (i + 2) % 16 == (i - 14) % 16;
      assert i % 16 == (i - 16) % 16;
      assert ring[(i - 3) % 16] == W(block, i - 3);
      assert ring[(i - 8) % 16] == W(block, i - 8);
      assert ring[(i - 14) % 16] == W(block, i - 14);
      assert ring[(i - 16) % 16] == W(block, i - 16);
    }
  }

  lemma {:induction false} RoundsAreFipsRounds(r: seq<Word>, ring: seq<Word>, block: Bytes, i: nat)
    requires |r| == 5 && |ring| == 16 && |block| == BLOCK_LENGTH && i <= 80
    requires RingHolds(ring, block, i)
    ensures View(Rounds(r, ring, block, i), 80) == FipsRounds(View(r, i), block, i)
    decreases 80 - i
  {
    if i < 80 {
      var wi := ScheduleWord(ring, block, i);
      ScheduleWordIsW(ring, block, i);
      var ring' := ring[i % 16 := wi];
      forall j: nat | j < i + 1 && i + 1 <= j + 16
        ensures ring'[j % 16] == W(block, j)
      {
        if j < i {
          ModStep(i, j);
        }
      }
      DoRoundIsFipsStep(r, i, wi);
      RoundsAreFipsRounds(DoRound(r, i, wi), ring', block, i + 1);
    }
  }

  // ---------------------------------------------------------------------------
  // write

  /**
   * Byte `j` (0 = most significant) of a word: `(x >> ((3 - j) * 8)) & 0xFF`, the
   * shift written as a division by 2^24, 2^16 or 2^8.
   */
  function WordByte(x: Word, j: nat): byte
    requires j < 4
  {
    if j == 0 then ((x / 0x100_0000) & 0xFF) as byte
    else if j == 1 then ((x / 0x1_0000) & 0xFF) as byte
    else if j == 2 then ((x / 0x100) & 0xFF) as byte
    else (x & 0xFF) as byte
  }

  /** The 20 digest bytes: byte `i` is byte `i % 4` (most significant first) of word `i / 4`. */
  function Digest(state: State): (r: Bytes)
    ensures |r| == LENGTH
    ensures forall k | 0 <= k < 5 :: LoadBe32(r, k) == state[k]
  {
    var r := seq(LENGTH, i requires 0 <= i < LENGTH => WordByte(state[i / 4], i % 4));
    forall k | 0 <= k < 5
      ensures LoadBe32(r, k) == state[k]
    {
      WordBytesRecombine(state[k]);
    }
    r
  }

  /** The four bytes `WordByte` takes from a word put back together give the word. */
  lemma WordBytesRecombine(x: Word)
    ensures Be32(WordByte(x, 0), WordByte(x, 1), WordByte(x, 2), WordByte(x, 3)) == x
  {
  }

  /**
   * `Sha1_state::write(out, out_len)`: nothing when `out` is null, otherwise
   * the first `min(out_len, LENGTH)` bytes of `out` receive the digest.
   */
  function Write(state: State, out: Option<Bytes>, outLen: nat): (r: Option<Bytes>)
    requires out.Some? ==> |out.value| >= Min(outLen, LENGTH)
    ensures r.None? <==> out.None?
    ensures r.Some? ==> |r.value| == |out.value|
    ensures r.Some? ==> r.value[..Min(outLen, LENGTH)] == Digest(state)[..Min(outLen, LENGTH)]
    ensures r.Some? ==> r.value[Min(outLen, LENGTH)..] == out.value[Min(outLen, LENGTH)..]
  {
    match out
    case None => None
    case Some(buf) =>
      var n := Min(outLen, LENGTH);
      Some(Digest(state)[..n] + buf[n..])
  }

  function Min(a: nat, b: nat): nat {
    if a < b then a else b
  }
}
