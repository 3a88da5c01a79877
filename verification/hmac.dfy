/**
 * hmac.hpp: `crypto::Hmac<Hash>` over a `Block_hash` whose compression
 * function is `t`, and the construction of RFC 2104 section 2 it computes.
 */
module Hmac {
  import opened Util
  import opened Wrappers
  import opened Sha1
  import opened BlockHash

  /** The inner and outer pad bytes of RFC 2104 section 2. */
  const IPAD: byte := 0x36
  const OPAD: byte := 0x5c

  // ---------------------------------------------------------------------------
  // RFC 2104 section 2

  /** Every byte of `s` XOR `b`. */
  function XorBytes(s: Bytes, b: byte): (r: Bytes)
    ensures |r| == |s|
  {
    seq(|s|, i requires 0 <= i < |s| => s[i] ^ b)
  }

  /** K: a key longer than B bytes is first hashed to L bytes. */
  function RfcKey(t: Compressor, key: Bytes): (k: Bytes)
    requires |key| * 8 < TWO_TO_64
    ensures |k| <= BLOCK_LENGTH
  {
    if |key| > BLOCK_LENGTH then HashOf(t, key) else key
  }

  /** H(K XOR opad, H(K XOR ipad, text)), K zero-padded to B bytes. */
  function Rfc2104(t: Compressor, key: Bytes, text: Bytes): (mac: Bytes)
    requires |key| * 8 < TWO_TO_64
    requires (BLOCK_LENGTH + |text|) * 8 < TWO_TO_64
    ensures |mac| == LENGTH
  {
    var k := RfcKey(t, key);
    var k0 := k + Zeros(BLOCK_LENGTH - |k|);
    HashOf(t, XorBytes(k0, OPAD) + HashOf(t, XorBytes(k0, IPAD) + text))
  }

  // ---------------------------------------------------------------------------
  // crypto::Hmac

  /** An `Hmac`: the inner hash and the `key_len` bytes of `key` in use. */
  datatype Hmac = Hmac(hash: Hasher, key: Bytes)

  predicate HmacValid(hm: Hmac) {
    Valid(hm.hash) && |hm.key| <= BLOCK_LENGTH
  }

  /**
   * `k_ipad` / `k_opad`: zero the block, copy the key in, XOR every byte with
   * the pad; as a value, the key zero-padded to a block, XOR the pad.
   */
  function KeyPad(key: Bytes, pad: byte): (r: Bytes)
    requires |key| <= BLOCK_LENGTH
    ensures |r| == BLOCK_LENGTH
    ensures forall i | 0 <= i < |key| :: r[i] == key[i] ^ pad
    ensures forall i | |key| <= i < BLOCK_LENGTH :: r[i] == pad
  {
    XorBytes(key + Zeros(BLOCK_LENGTH - |key|), pad)
  }

  /** The `memset` / `memcpy` / XOR steps that build a pad block. */
  method FillPad(key: Bytes, pad: byte) returns (block: Bytes)
    requires |key| <= BLOCK_LENGTH
    ensures block == KeyPad(key, pad)
  {
    block := CopyKey(key);
    block := XorEach(block, pad);
  }

  /** `memset(k_pad, 0, BLOCK_LENGTH); memcpy(k_pad, key, key_len)`. */
  method CopyKey(key: Bytes) returns (block: Bytes)
    requires |key| <= BLOCK_LENGTH
    ensures block == key + Zeros(BLOCK_LENGTH - |key|)
  {
    block := Zeros(BLOCK_LENGTH);
    var n := 0;
    while n < |key|
      invariant 0 <= n <= |key| && |block| == BLOCK_LENGTH
      invariant forall j | 0 <= j < BLOCK_LENGTH :: block[j] == if j < n then key[j] else 0
    {
      block := block[n := key[n]];
      n := n + 1;
    }
    assert forall j | 0 <= j < BLOCK_LENGTH :: block[j] == (key + Zeros(BLOCK_LENGTH - |key|))[j];
  }

  /** `for (i = 0; i < BLOCK_LENGTH; ++i) k_pad[i] ^= pad`. */
  method XorEach(s: Bytes, pad: byte) returns (r: Bytes)
    ensures r == XorBytes(s, pad)
  {
    r := s;
    var i := 0;
    while i < |s|
      invariant 0 <= i <= |s| && |r| == |s|
      invariant forall j | 0 <= j < i :: r[j] == s[j] ^ pad
      invariant forall j | i <= j < |s| :: r[j] == s[j]
    {
      r := r[i := r[i] ^ pad];
      i := i + 1;
    }
  }

  /**
   * The constructor's `key` / `key_len`: a key longer than a block is hashed
   * into the first `Hash::LENGTH` bytes of the array, a shorter one copied.
   */
  function KeyOf(t: Compressor, argKey: Bytes): (r: Result<Bytes>)
    ensures r.Success? ==> |r.value| == if |argKey| > BLOCK_LENGTH then LENGTH else |argKey|
    ensures |argKey| <= BLOCK_LENGTH ==> r == Success(argKey)
  {
    if |argKey| > BLOCK_LENGTH then
      var buf :- Compute(t, Some(Zeros(BLOCK_LENGTH)), BLOCK_LENGTH, argKey);
      Success(buf.value[..LENGTH])
    else
      Success(argKey)
  }

  /**
   * `Hmac(key, key_len)`: settle the key, then start the inner hash on the
   * key block XOR 0x36 (one block into a fresh hash, which cannot overflow).
   */
  function New(t: Compressor, argKey: Bytes): (r: Result<Hmac>)
    ensures r.Success? <==> KeyOf(t, argKey).Success?
    ensures r.Success? ==> HmacValid(r.value) && r.value.key == KeyOf(t, argKey).value
    ensures |argKey| <= BLOCK_LENGTH ==> r.Success? && r.value.key == argKey
  {
    var key :- KeyOf(t, argKey);
    var hash := Update(t, BlockHash.New(), KeyPad(key, IPAD)).value;
    Success(Hmac(hash, key))
  }

  /** `update(data, len)`: straight into the inner hash. */
  function HmacUpdate(t: Compressor, hm: Hmac, data: Bytes): (r: Result<Hmac>)
    requires HmacValid(hm)
    ensures r.Success? <==> Update(t, hm.hash, data).Success?
    ensures r.Success? ==> HmacValid(r.value) && r.value.key == hm.key
  {
    var hash :- Update(t, hm.hash, data);
    Success(hm.(hash := hash))
  }

  /**
   * `finish(out, out_len)`: the inner digest, then a fresh hash over the key
   * block XOR 0x5c and that digest, finished into `out`.
   */
  function HmacFinish(t: Compressor, hm: Hmac, out: Option<Bytes>, outLen: nat): (r: Result<Option<Bytes>>)
    requires HmacValid(hm)
    requires out.Some? ==> |out.value| >= Min(outLen, LENGTH)
    ensures r.Success? ==> (r.value.Some? <==> out.Some?)
  {
    var digest :- Finish(t, hm.hash, Some(Zeros(LENGTH)), LENGTH);
    var outer := Update(t, BlockHash.New(), KeyPad(hm.key, OPAD)).value;
    var outer' := Update(t, outer, digest.value).value;
    Finish(t, outer', out, outLen)
  }

  /** `Hmac::compute`: construct, one update, finish. */
  function HmacCompute(t: Compressor, out: Option<Bytes>, outLen: nat, key: Bytes, data: Bytes): (r: Result<Option<Bytes>>)
    requires out.Some? ==> |out.value| >= Min(outLen, LENGTH)
    ensures r.Success? ==> (r.value.Some? <==> out.Some?)
  {
    var hm :- New(t, key);
    var hm' :- HmacUpdate(t, hm, data);
    HmacFinish(t, hm', out, outLen)
  }

  // ---------------------------------------------------------------------------
  // Hmac computes RFC 2104

  /** The key the constructor keeps is the K of RFC 2104. */
  lemma KeyOfIsRfcKey(t: Compressor, key: Bytes)
    requires |key| * 8 < TWO_TO_64
    ensures KeyOf(t, key) == Success(RfcKey(t, key))
  {
    if |key| > BLOCK_LENGTH {
      ComputeHashesPadded(t, Some(Zeros(BLOCK_LENGTH)), BLOCK_LENGTH, key);
      var buf := Write(HashBlocks(t, H0, FipsPad(key)), Some(Zeros(BLOCK_LENGTH)), BLOCK_LENGTH);
      assert buf.value[..LENGTH] == HashOf(t, key);
    }
  }

  /** The constructor keeps the key K of RFC 2104 and has absorbed K XOR ipad. */
  lemma NewAbsorbsInnerPad(t: Compressor, key: Bytes)
    requires |key| * 8 < TWO_TO_64
    ensures New(t, key).Success?
    ensures New(t, key).value.key == RfcKey(t, key)
    ensures Absorbed(t, New(t, key).value.hash, KeyPad(RfcKey(t, key), IPAD))
  {
    KeyOfIsRfcKey(t, key);
    var block := KeyPad(RfcKey(t, key), IPAD);
    FreshAbsorbs(t, block);
  }

  /** `update` extends the text the inner hash has absorbed after the pad block. */
  lemma HmacUpdateAbsorbs(t: Compressor, hm: Hmac, text: Bytes, data: Bytes)
    requires HmacValid(hm) && Absorbed(t, hm.hash, KeyPad(hm.key, IPAD) + text)
    requires (BLOCK_LENGTH + |text| + |data|) * 8 < TWO_TO_64
    ensures HmacUpdate(t, hm, data).Success?
    ensures Absorbed(t, HmacUpdate(t, hm, data).value.hash, KeyPad(hm.key, IPAD) + (text + data))
  {
    UpdateAbsorbs(t, hm.hash, KeyPad(hm.key, IPAD) + text, data);
    assert KeyPad(hm.key, IPAD) + text + data == KeyPad(hm.key, IPAD) + (text + data);
  }

  /** `finish` after the inner hash absorbed K XOR ipad and `text` writes the RFC 2104 code. */
  lemma HmacFinishIsRfc(t: Compressor, hm: Hmac, key: Bytes, text: Bytes, out: Option<Bytes>, outLen: nat)
    requires |key| * 8 < TWO_TO_64 && (BLOCK_LENGTH + |text|) * 8 < TWO_TO_64
    requires HmacValid(hm) && hm.key == RfcKey(t, key)
    requires Absorbed(t, hm.hash, KeyPad(hm.key, IPAD) + text)
    requires out.Some? ==> |out.value| >= Min(outLen, LENGTH)
    ensures HmacFinish(t, hm, out, outLen)
         == Success(Write(HashBlocks(t, H0, FipsPad(KeyPad(hm.key, OPAD) + HashOf(t, KeyPad(hm.key, IPAD) + text))), out, outLen))
  {
    var inner := KeyPad(hm.key, IPAD) + text;
    FinishHashesPadded(t, hm.hash, inner, Some(Zeros(LENGTH)), LENGTH);
    WriteWholeDigest(HashBlocks(t, H0, FipsPad(inner)));
    var digest := HashOf(t, inner);
    var opad := KeyPad(hm.key, OPAD);
    FreshAbsorbs(t, opad);
    var outer := Update(t, BlockHash.New(), opad).value;
    UpdateAbsorbs(t, outer, opad, digest);
    FinishHashesPadded(t, Update(t, outer, digest).value, opad + digest, out, outLen);
  }

  /**
   * `Hmac::compute` writes the first `min(out_len, 20)` bytes of
   * H(K XOR opad, H(K XOR ipad, text)) into `out` and leaves the rest of it.
   */
  lemma HmacComputeIsRfc2104(t: Compressor, out: Option<Bytes>, outLen: nat, key: Bytes, text: Bytes)
    requires out.Some? ==> |out.value| >= Min(outLen, LENGTH)
    requires |key| * 8 < TWO_TO_64 && (BLOCK_LENGTH + |text|) * 8 < TWO_TO_64
    ensures HmacCompute(t, out, outLen, key, text).Success?
    ensures HmacCompute(t, out, outLen, key, text).value.Some? <==> out.Some?
    ensures out.Some? ==>
              HmacCompute(t, out, outLen, key, text).value.value == Rfc2104(t, key, text)[..Min(outLen, LENGTH)] + out.value[Min(outLen, LENGTH)..]
  {
    ComputeAbsorbs(t, key, text);
    var hm' := HmacUpdate(t, New(t, key).value, text).value;
    HmacFinishIsRfc(t, hm', key, text, out, outLen);
    OuterDigestIsRfc(t, key, text);
  }

  /** After construction and one update the inner hash has absorbed K XOR ipad and `text`. */
  lemma ComputeAbsorbs(t: Compressor, key: Bytes, text: Bytes)
    requires |key| * 8 < TWO_TO_64 && (BLOCK_LENGTH + |text|) * 8 < TWO_TO_64
    ensures New(t, key).Success? && HmacUpdate(t, New(t, key).value, text).Success?
    ensures var hm' := HmacUpdate(t, New(t, key).value, text).value;
      && HmacValid(hm') && hm'.key == RfcKey(t, key)
      && Absorbed(t, hm'.hash, KeyPad(RfcKey(t, key), IPAD) + text)
  {
    NewAbsorbsInnerPad(t, key);
    UpdateAfterPad(t, New(t, key).value, text);
  }

  /** An update right after the pad block leaves the inner hash having absorbed the pad block and `data`. */
  lemma UpdateAfterPad(t: Compressor, hm: Hmac, data: Bytes)
    requires HmacValid(hm) && Absorbed(t, hm.hash, KeyPad(hm.key, IPAD))
    requires (BLOCK_LENGTH + |data|) * 8 < TWO_TO_64
    ensures HmacUpdate(t, hm, data).Success?
    ensures Absorbed(t, HmacUpdate(t, hm, data).value.hash, KeyPad(hm.key, IPAD) + data)
  {
    UpdateAbsorbs(t, hm.hash, KeyPad(hm.key, IPAD), data);
  }

  /** The digest of the outer hash over the source's pad blocks is RFC 2104's code. */
  lemma OuterDigestIsRfc(t: Compressor, key: Bytes, text: Bytes)
    requires |key| * 8 < TWO_TO_64 && (BLOCK_LENGTH + |text|) * 8 < TWO_TO_64
    ensures var k := RfcKey(t, key);
      Digest(HashBlocks(t, H0, FipsPad(KeyPad(k, OPAD) + HashOf(t, KeyPad(k, IPAD) + text)))) == Rfc2104(t, key, text)
  {
  }
}
