/**
 * prvs.cpp: the tag value `K DDD SSSSSS` of the BATV "prvs" scheme
 * (draft-levine-smtp-batv-01, section 4): a key number, a three-digit
 * expiry day on a 1000-day ring and three bytes of HMAC-SHA1 in hex.
 */
module Prvs {
  import opened Util
  import opened Wrappers
  import opened Ascii
  import HmacSha1
  import Address

  /** `unsigned int`. */
  const TWO_TO_32: int := 0x1_0000_0000
  type UInt = x: nat | x < TWO_TO_32

  /** A day number on the ring: `today()` is `(time(NULL) / 86400) % 1000`. */
  type Day = d: nat | d < 1000

  /** The decoded fields of a tag value. */
  datatype Tag = Tag(keyNum: nat, day: Day, claimed: seq<byte>)

  /** The value of a hexadecimal digit as `%x` reads it (either case). */
  function HexValue(c: char): (v: nat)
    requires IsHexDigit(c)
    ensures v < 16
  {
    if IsDigit(c) then c as nat - '0' as nat
    else if 'a' <= c <= 'f' then c as nat - 'a' as nat + 10
    else c as nat - 'A' as nat + 10
  }

  const LOWER_HEX: string := "0123456789abcdef"

  /** `%x`: a lowercase hex digit. */
  function HexDigit(n: nat): (c: char)
    requires n < 16
    ensures IsHexDigit(c) && HexValue(c) == n
    ensures LowerHexChar(c)
  {
    LOWER_HEX[n]
  }

  /** `%02x` of a byte: two lowercase hex digits, high nibble first. */
  function Hex2(b: byte): (s: string)
    ensures |s| == 2 && IsHexDigit(s[0]) && IsHexDigit(s[1])
    ensures LowerHexChar(s[0]) && LowerHexChar(s[1])
    ensures HexValue(s[0]) * 16 + HexValue(s[1]) == b as nat
  {
    [HexDigit(b as nat / 16), HexDigit(b as nat % 16)]
  }

  /** `%03u` of a number below 1000: three decimal digits, zero-padded. */
  function Dec3(n: Day): (s: string)
    ensures |s| == 3 && IsDigit(s[0]) && IsDigit(s[1]) && IsDigit(s[2])
    ensures DigitValue(s[0]) * 100 + DigitValue(s[1]) * 10 + DigitValue(s[2]) == n
  {
    ThreeDigits(n);
    [DigitChar(n / 100), DigitChar(n / 10 % 10), DigitChar(n % 10)]
  }

  lemma ThreeDigits(n: Day)
    ensures n / 100 < 10 && n / 10 % 10 < 10 && n % 10 < 10
    ensures (n / 100) * 100 + (n / 10 % 10) * 10 + n % 10 == n
  {
    var q, u := n / 10, n % 10;
    assert n == q * 10 + u;
    assert q / 10 == n / 100;
    assert q == (q / 10) * 10 + q % 10;
  }

  /** Two hex digits as the byte `%2x` stores. */
  function HexByte(hi: char, lo: char): byte
    requires IsHexDigit(hi) && IsHexDigit(lo)
  {
    (HexValue(hi) * 16 + HexValue(lo)) as byte
  }

  /**
   * `sscanf(val, "%1u%3u%2x%2x%2x", ...)` on a 10-character value, read
   * strictly: one digit, three digits, six hex digits, or nothing.
   */
  function DecodeTag(val: string): (r: Option<Tag>)
    requires |val| == 10
    ensures r.Some? <==> (forall i | 0 <= i < 4 :: IsDigit(val[i])) && (forall i | 4 <= i < 10 :: IsHexDigit(val[i]))
    ensures r.Some? ==> |r.value.claimed| == 3
  {
    if (forall i | 0 <= i < 4 :: IsDigit(val[i])) && (forall i | 4 <= i < 10 :: IsHexDigit(val[i])) then
      Some(Tag(DigitValue(val[0]),
               DigitValue(val[1]) * 100 + DigitValue(val[2]) * 10 + DigitValue(val[3]),
               [HexByte(val[4], val[5]), HexByte(val[6], val[7]), HexByte(val[8], val[9])]))
    else
      None
  }

  /** `hash-source = K DDD <orig-mailfrom>`: the first four characters of the tag value, then the sender. */
  function HashSource(val: string, origMailfrom: string): (m: Bytes)
    requires |val| >= 4
    ensures |m| == 4 + |origMailfrom|
  {
    ToBytes(val[..4] + origMailfrom)
  }

  /** The three HMAC bytes a tag value must carry: the start of HMAC-SHA1 over `K DDD <orig-mailfrom>`. */
  function ExpectedMac(val: string, origMailfrom: string, key: Bytes): (m: seq<byte>)
    requires |val| >= 4
    ensures |m| == 3
  {
    HmacSha1.Mac(key, HashSource(val, origMailfrom))[..3]
  }

  /** The three-byte comparison `((c0 ^ m0) | (c1 ^ m1) | (c2 ^ m2)) == 0`. */
  function SameThreeBytes(claimed: seq<byte>, correct: seq<byte>): (r: bool)
    requires |claimed| == 3 && |correct| >= 3
    ensures r <==> claimed == correct[..3]
  {
    ((claimed[0] ^ correct[0]) | (claimed[1] ^ correct[1]) | (claimed[2] ^ correct[2])) == 0
  }

  /**
   * `(unsigned)((int)day - (int)today + 1000) % 1000`: the days from `today`
   * forward to `day` around the ring (the sum is never negative here).
   */
  function DaysLeft(day: Day, today: Day): (n: nat)
    ensures n < 1000 && Ring(today + n) == day
  {
    RingForward(day, today);
    (day - today + 1000) % 1000
  }

  /** A count of days reduced onto the ring. */
  function Ring(x: nat): Day {
    x % 1000
  }

  /** The day `n` days after `today`. */
  function After(today: Day, n: nat): Day {
    Ring(today + n)
  }

  lemma RingForward(day: Day, today: Day)
    ensures 0 <= (day - today + 1000) % 1000 < 1000
    ensures Ring(today + (day - today + 1000) % 1000) == day
  {
    if day >= today {
      assert (day - today + 1000) % 1000 == day - today;
    } else {
      assert (day - today + 1000) % 1000 == day - today + 1000;
    }
  }

  /**
   * `prvs_validate(val, orig_mailfrom, lifetime, key)` with `today()` as
   * `today`: length 10, key number 0, expiry at most `lifetime` days ahead,
   * and the three claimed bytes equal to the start of the HMAC.
   */
  function Validate(val: string, origMailfrom: string, lifetime: UInt, key: Bytes, today: Day): (ok: bool)
    ensures ok ==> |val| == 10 && DecodeTag(val).Some?
    ensures ok ==> DecodeTag(val).value.keyNum == 0
    ensures ok ==> DaysLeft(DecodeTag(val).value.day, today) <= lifetime
    ensures ok ==> DecodeTag(val).value.claimed == ExpectedMac(val, origMailfrom, key)
    ensures (|val| == 10 && DecodeTag(val).Some? && DecodeTag(val).value.keyNum == 0
             && DaysLeft(DecodeTag(val).value.day, today) <= lifetime
             && DecodeTag(val).value.claimed == ExpectedMac(val, origMailfrom, key)) ==> ok
  {
    if |val| != 10 then false
    else
      match DecodeTag(val)
      case None => false
      case Some(tag) =>
        if tag.keyNum != 0 then false
        else if DaysLeft(tag.day, today) > lifetime then false
        else SameThreeBytes(tag.claimed, HmacSha1.Mac(key, HashSource(val, origMailfrom)))
  }

  /** The expiry day `prvs_generate` writes: `(today() + lifetime) % 1000`, the sum wrapping as `unsigned int`. */
  function ExpiryDay(today: Day, lifetime: UInt): Day {
    Ring((today + lifetime) % TWO_TO_32)
  }

  /** Below 1000 days the sum does not wrap. */
  lemma ExpiryNoWrap(today: Day, lifetime: UInt)
    requires lifetime <= 999
    ensures ExpiryDay(today, lifetime) == Ring(today + lifetime)
  {
    assert today + lifetime < TWO_TO_32;
    assert (today + lifetime) % TWO_TO_32 == today + lifetime;
  }

  /** The ten characters `prvs_generate` builds in `val`. */
  function GenerateTag(origMailfrom: string, lifetime: UInt, key: Bytes, today: Day): (val: string)
    ensures |val| == 10 && val[0] == '0'
  {
    var head := ['0'] + Dec3(ExpiryDay(today, lifetime));
    var mac := HmacSha1.Mac(key, ToBytes(head + origMailfrom));
    head + Hex2(mac[0]) + Hex2(mac[1]) + Hex2(mac[2])
  }

  /** `prvs_generate`: `prvs=`, the tag value, `=`, the original sender. */
  function Generate(origMailfrom: string, lifetime: UInt, key: Bytes, today: Day): (r: string)
    ensures |r| == 16 + |origMailfrom|
    ensures r[..5] == "prvs=" && r[15] == '=' && r[16..] == origMailfrom
    ensures r[5..15] == GenerateTag(origMailfrom, lifetime, key, today)
  {
    "prvs=" + GenerateTag(origMailfrom, lifetime, key, today) + "=" + origMailfrom
  }

  /** Reading back the two digits of `%02x` gives the byte. */
  lemma HexByteOfHex2(b: byte)
    ensures HexByte(Hex2(b)[0], Hex2(b)[1]) == b
  {
  }

  /** A tag value assembled from a key digit, three day digits and three pairs of hex digits decodes piecewise. */
  lemma DecodePieces(k: char, d: string, h0: string, h1: string, h2: string)
    requires IsDigit(k) && |d| == 3 && IsDigit(d[0]) && IsDigit(d[1]) && IsDigit(d[2])
    requires |h0| == 2 && IsHexDigit(h0[0]) && IsHexDigit(h0[1])
    requires |h1| == 2 && IsHexDigit(h1[0]) && IsHexDigit(h1[1])
    requires |h2| == 2 && IsHexDigit(h2[0]) && IsHexDigit(h2[1])
    ensures var val := [k] + d + h0 + h1 + h2;
      && |val| == 10 && val[..4] == [k] + d
      && DecodeTag(val) == Some(Tag(DigitValue(k), DigitValue(d[0]) * 100 + DigitValue(d[1]) * 10 + DigitValue(d[2]),
                                    [HexByte(h0[0], h0[1]), HexByte(h1[0], h1[1]), HexByte(h2[0], h2[1])]))
  {
    var val := [k] + d + h0 + h1 + h2;
    assert val[0] == k && val[1] == d[0] && val[2] == d[1] && val[3] == d[2];
    assert val[4] == h0[0] && val[5] == h0[1] && val[6] == h1[0] && val[7] == h1[1] && val[8] == h2[0] && val[9] == h2[1];
  }

  /** The generated tag value decodes to key 0, the expiry day and the first three HMAC bytes. */
  lemma DecodeGenerated(origMailfrom: string, lifetime: UInt, key: Bytes, today: Day)
    ensures var val := GenerateTag(origMailfrom, lifetime, key, today);
      DecodeTag(val) == Some(Tag(0, ExpiryDay(today, lifetime), ExpectedMac(val, origMailfrom, key)))
  {
    var d := Dec3(ExpiryDay(today, lifetime));
    var head := ['0'] + d;
    var mac := HmacSha1.Mac(key, ToBytes(head + origMailfrom));
    var val := GenerateTag(origMailfrom, lifetime, key, today);
    var h0, h1, h2 := Hex2(mac[0]), Hex2(mac[1]), Hex2(mac[2]);
    DecodePieces('0', d, h0, h1, h2);
    assert val == ['0'] + d + h0 + h1 + h2;
    assert HashSource(val, origMailfrom) == ToBytes(head + origMailfrom);
    HexByteOfHex2(mac[0]);
    HexByteOfHex2(mac[1]);
    HexByteOfHex2(mac[2]);
    FirstThree(mac);
    var claimed := [HexByte(h0[0], h0[1]), HexByte(h1[0], h1[1]), HexByte(h2[0], h2[1])];
    assert claimed == mac[..3];
    var day := DigitValue(d[0]) * 100 + DigitValue(d[1]) * 10 + DigitValue(d[2]);
    assert day == ExpiryDay(today, lifetime);
    assert DecodeTag(val) == Some(Tag(DigitValue('0'), day, claimed));
  }

  lemma FirstThree(s: seq<byte>)
    requires |s| >= 3
    ensures s[..3] == [s[0], s[1], s[2]]
  {
  }

  /**
   * Round trip: on the same day, with the same key and a lifetime below
   * 1000, `prvs_validate` accepts the tag value `prvs_generate` wrote.
   */
  lemma ValidateAcceptsGenerated(origMailfrom: string, lifetime: UInt, key: Bytes, today: Day)
    requires lifetime <= 999
    ensures Validate(GenerateTag(origMailfrom, lifetime, key, today), origMailfrom, lifetime, key, today)
  {
    var val := GenerateTag(origMailfrom, lifetime, key, today);
    DecodeGenerated(origMailfrom, lifetime, key, today);
    var tag := DecodeTag(val).value;
    ExpiryNoWrap(today, lifetime);
    RingBack(today, lifetime);
    assert DaysLeft(tag.day, today) <= lifetime;
  }

  /** A tag value with any claimed byte different from the HMAC is refused. */
  lemma ValidateRejectsForgery(val: string, origMailfrom: string, lifetime: UInt, key: Bytes, today: Day)
    requires |val| == 10 && DecodeTag(val).Some?
    requires DecodeTag(val).value.claimed != ExpectedMac(val, origMailfrom, key)
    ensures !Validate(val, origMailfrom, lifetime, key, today)
  {
  }

  /** Going `n < 1000` days forward and then measuring the distance back gives `n`. */
  lemma RingBack(today: Day, n: nat)
    requires n < 1000
    ensures DaysLeft(Ring(today + n), today) == n
  {
    if today + n < 1000 {
      assert Ring(today + n) == today + n;
    } else {
      assert Ring(today + n) == today + n - 1000;
    }
  }

  /** An accepted tag value expires within `lifetime` days of `today`. */
  lemma AcceptedExpiresWithinLifetime(val: string, origMailfrom: string, lifetime: UInt, key: Bytes, today: Day)
    requires Validate(val, origMailfrom, lifetime, key, today)
    ensures exists n: nat :: n <= lifetime && After(today, n) == DecodeTag(val).value.day
  {
    var n := DaysLeft(DecodeTag(val).value.day, today);
    assert After(today, n) == DecodeTag(val).value.day;
  }

  /** A character `%u` or `%02x` can write. */
  predicate LowerHexChar(c: char) {
    IsDigit(c) || 'a' <= c <= 'f'
  }

  lemma PiecesChars(k: char, d: string, h0: string, h1: string, h2: string)
    requires IsDigit(k) && |d| == 3 && IsDigit(d[0]) && IsDigit(d[1]) && IsDigit(d[2])
    requires |h0| == 2 && LowerHexChar(h0[0]) && LowerHexChar(h0[1])
    requires |h1| == 2 && LowerHexChar(h1[0]) && LowerHexChar(h1[1])
    requires |h2| == 2 && LowerHexChar(h2[0]) && LowerHexChar(h2[1])
    ensures var val := [k] + d + h0 + h1 + h2; forall i | 0 <= i < |val| :: LowerHexChar(val[i])
  {
    var val := [k] + d + h0 + h1 + h2;
    assert val[1] == d[0] && val[2] == d[1] && val[3] == d[2];
    assert val[4] == h0[0] && val[5] == h0[1] && val[6] == h1[0] && val[7] == h1[1] && val[8] == h2[0] && val[9] == h2[1];
  }

  /** The generated tag value is made of decimal digits and lowercase hex digits only. */
  lemma GenerateTagChars(origMailfrom: string, lifetime: UInt, key: Bytes, today: Day)
    ensures var val := GenerateTag(origMailfrom, lifetime, key, today);
      forall i | 0 <= i < |val| :: LowerHexChar(val[i])
  {
    var d := Dec3(ExpiryDay(today, lifetime));
    var mac := HmacSha1.Mac(key, ToBytes(['0'] + d + origMailfrom));
    var h0, h1, h2 := Hex2(mac[0]), Hex2(mac[1]), Hex2(mac[2]);
    PiecesChars('0', d, h0, h1, h2);
    assert GenerateTag(origMailfrom, lifetime, key, today) == ['0'] + d + h0 + h1 + h2;
  }

  /**
   * `prvs_generate(orig_mailfrom, lifetime, key)` of prvs.hpp, the form the
   * milter uses: the sender's local part as loc-core, tag type `prvs`, the
   * tag value over the sender's address text, the sender's domain.
   */
  function GenerateAddress(from: Address.EmailAddress, lifetime: UInt, key: Bytes, today: Day): (b: Address.BatvAddress)
    ensures b.tagType == "prvs" && Address.OrigMailfrom(b) == from
    ensures Address.AllTagChars(b.tagVal) && |b.tagVal| == 10
  {
    var val := GenerateTag(Address.MakeString(from), lifetime, key, today);
    GenerateTagChars(Address.MakeString(from), lifetime, key, today);
    Address.BatvAddress(from.localPart, "prvs", val, from.domain)
  }

  /** Reducing one summand first does not change the day on the ring. */
  lemma RingShift(a: nat, b: nat)
    requires a < 2000
    ensures Ring(Ring(a) + b) == Ring(a + b)
  {
    if a >= 1000 {
      assert Ring(a) == a - 1000;
      assert (a - 1000 + b) % 1000 == (a + b) % 1000;
    }
  }

  /**
   * The address stays valid for its whole lifetime: `k <= lifetime` days
   * after it was generated, `prvs_validate` with the same key still accepts
   * the tag value.
   */
  lemma ValidateAcceptsWithinLifetime(origMailfrom: string, lifetime: UInt, key: Bytes, today: Day, k: nat)
    requires lifetime <= 999 && k <= lifetime
    ensures Validate(GenerateTag(origMailfrom, lifetime, key, today), origMailfrom, lifetime, key, After(today, k))
  {
    DecodeGenerated(origMailfrom, lifetime, key, today);
    ExpiryNoWrap(today, lifetime);
    DaysLeftLater(today, lifetime, k);
  }

  /**
   * Once its lifetime is over the address is refused: `k` days after it was
   * generated, with `lifetime < k <= 999`, the expiry day lies behind today
   * on the ring and `prvs_validate` rejects the tag value. (With a lifetime
   * of 999 there is no such day: day 1000 is day 0 of the ring again.)
   */
  lemma ValidateRejectsAfterLifetime(origMailfrom: string, lifetime: UInt, key: Bytes, today: Day, k: nat)
    requires lifetime < k <= 999
    ensures !Validate(GenerateTag(origMailfrom, lifetime, key, today), origMailfrom, lifetime, key, After(today, k))
  {
    DecodeGenerated(origMailfrom, lifetime, key, today);
    ExpiryNoWrap(today, lifetime);
    DaysLeftAfterExpiry(today, lifetime, k);
  }

  /** `k` days after a lifetime of `n < k` days ended, the expiry day is `1000 + n - k` days ahead on the ring. */
  lemma DaysLeftAfterExpiry(today: Day, n: nat, k: nat)
    requires n < k <= 999
    ensures DaysLeft(Ring(today + n), After(today, k)) == 1000 + n - k
  {
    var m := 1000 + n - k;
    RingShift(today + k, m);
    assert Ring(today + k + m) == Ring(today + n) by {
      assert today + k + m == today + n + 1000;
    }
    RingBack(After(today, k), m);
  }

  /** `k` days into a lifetime of `n` days, `n - k` days are left. */
  lemma DaysLeftLater(today: Day, n: nat, k: nat)
    requires n <= 999 && k <= n
    ensures DaysLeft(Ring(today + n), After(today, k)) == n - k
  {
    RingShift(today + k, n - k);
    RingBack(After(today, k), n - k);
  }
}
