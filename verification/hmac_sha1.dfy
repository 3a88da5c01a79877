/**
 * HMAC-SHA1: `crypto::Hmac<crypto::Sha1>` of hmac.hpp, and the keyed hash
 * prvs.cpp obtains from OpenSSL's `HMAC(EVP_sha1(), ...)`; both are the
 * construction of RFC 2104 section 2 over FIPS 180-4 SHA-1.
 */
module HmacSha1 {
  import opened Util
  import opened Wrappers
  import opened Sha1
  import opened BlockHash
  import opened Hmac
  import opened Sha1Hash

  /** Whether RFC 2104 over SHA-1 is defined for these lengths (each hashed message below 2^64 bits). */
  predicate InRange(key: Bytes, text: Bytes) {
    |key| * 8 < TWO_TO_64 && (BLOCK_LENGTH + |text|) * 8 < TWO_TO_64
  }

  /**
   * HMAC-SHA1 of `text` under `key`, 20 bytes; outside the range SHA-1 is
   * defined for, the all-zero code (no caller comes near it).
   */
  function Mac(key: Bytes, text: Bytes): (mac: Bytes)
    ensures |mac| == LENGTH
  {
    if InRange(key, text) then Rfc2104(FipsBlock, key, text) else Zeros(LENGTH)
  }

  /** `crypto::Hmac<crypto::Sha1>::compute`. */
  function Sha1HmacCompute(out: Option<Bytes>, outLen: nat, key: Bytes, data: Bytes): (r: Result<Option<Bytes>>)
    requires out.Some? ==> |out.value| >= Min(outLen, LENGTH)
    ensures r.Success? ==> (r.value.Some? <==> out.Some?)
  {
    HmacCompute(Sha1Transform, out, outLen, key, data)
  }

  /** RFC 2104 built on the source's SHA-1 is RFC 2104 built on FIPS 180-4 SHA-1. */
  lemma Rfc2104OverSha1(key: Bytes, text: Bytes)
    requires InRange(key, text)
    ensures Rfc2104(Sha1Transform, key, text) == Rfc2104(FipsBlock, key, text)
  {
    var k := RfcKey(FipsBlock, key);
    assert RfcKey(Sha1Transform, key) == k by {
      if |key| > BLOCK_LENGTH {
        HashOfSha1IsFips(key);
      }
    }
    var k0 := k + Zeros(BLOCK_LENGTH - |k|);
    var inner := XorBytes(k0, IPAD) + text;
    HashOfSha1IsFips(inner);
    var outer := XorBytes(k0, OPAD) + HashOf(FipsBlock, inner);
    HashOfSha1IsFips(outer);
  }

  /**
   * The repository's `Hmac<Sha1>::compute` writes the first `min(out_len, 20)`
   * bytes of HMAC-SHA1 into `out` and leaves the rest of the buffer alone.
   */
  lemma Sha1HmacIsMac(out: Option<Bytes>, outLen: nat, key: Bytes, text: Bytes)
    requires out.Some? ==> |out.value| >= Min(outLen, LENGTH)
    requires InRange(key, text)
    ensures Sha1HmacCompute(out, outLen, key, text).Success?
    ensures Sha1HmacCompute(out, outLen, key, text).value.Some? <==> out.Some?
    ensures out.Some? ==>
              Sha1HmacCompute(out, outLen, key, text).value.value == Mac(key, text)[..Min(outLen, LENGTH)] + out.value[Min(outLen, LENGTH)..]
  {
    HmacComputeIsRfc2104(Sha1Transform, out, outLen, key, text);
    Rfc2104OverSha1(key, text);
  }
}
