/**
 * The address arithmetic of config.cpp: IPv4-mapped IPv6 addresses
 * (`make_ipv4_mapped_address`) and the prefix test inside
 * `Config::is_internal_host`, which compares whole bytes with `memcmp` and
 * the last partial byte under a mask.
 */
module Cidr {
  import opened Util

  /** `struct in6_addr`: sixteen bytes in network order. */
  type Ipv6 = a: Bytes | |a| == 16 witness [0, 0, 0, 0, 0, 0, 0, 0, 0, 0, 0, 0, 0, 0, 0, 0]

  /** `struct in_addr`: the four bytes of `s_addr` as they lie in memory (network order). */
  type Ipv4 = a: Bytes | |a| == 4 witness [0, 0, 0, 0]

  /** `Ipv6_cidr`: an address and a prefix length in bits. */
  datatype Cidr = Cidr(addr: Ipv6, prefixLen: nat)

  /** The prefix lengths `parse_cidr_string` lets through. */
  predicate ValidCidr(c: Cidr) {
    c.prefixLen <= 128
  }

  /** `make_ipv4_mapped_address`: `::ffff:a.b.c.d`. */
  function MakeIpv4Mapped(v4: Ipv4): (r: Ipv6)
    ensures forall i | 0 <= i < 10 :: r[i] == 0
    ensures r[10] == 0xFF && r[11] == 0xFF
    ensures r[12..] == v4
  {
    Zeros(10) + [0xFF, 0xFF] + v4
  }

  /** Distinct IPv4 addresses map to distinct IPv6 addresses. */
  lemma MappedInjective(a: Ipv4, b: Ipv4)
    requires MakeIpv4Mapped(a) == MakeIpv4Mapped(b)
    ensures a == b
  {
    assert a == MakeIpv4Mapped(a)[12..];
  }

  /** The single-bit mask of bit `j`, most significant first. */
  function BitMask(j: nat): byte
    requires j < 8
  {
    if j == 0 then 0x80 else if j == 1 then 0x40 else if j == 2 then 0x20 else if j == 3 then 0x10
    else if j == 4 then 0x08 else if j == 5 then 0x04 else if j == 6 then 0x02 else 0x01
  }

  /** Bit `j` of a byte, counting from the most significant (bit 0). */
  predicate BitAt(x: byte, j: nat)
    requires j < 8
  {
    x & BitMask(j) != 0
  }

  /** Bit `i` of a byte string, most significant bit of byte 0 first. */
  predicate Bit(a: Bytes, i: nat)
    requires i < 8 * |a|
  {
    BitAt(a[i / 8], i % 8)
  }

  /** The first `n` bits of `a` and `b` agree. */
  predicate BitPrefix(a: Bytes, b: Bytes, n: nat)
    requires n <= 8 * |a| && n <= 8 * |b|
  {
    forall i | 0 <= i < n :: Bit(a, i) == Bit(b, i)
  }

  /** `uint8_t last_byte_mask = 255 << (8 - r)`: the top `r` bits, truncated to a byte. */
  function Mask(r: nat): byte
    requires r < 8
  {
    (((0xFF as bv16) << (8 - r)) & 0xFF) as byte
  }

  /**
   * The test of one entry in `is_internal_host`: the first `prefix / 8`
   * bytes are equal, and either all 16 bytes were compared or the next byte
   * agrees under the mask.
   */
  predicate PrefixMatches(addr: Ipv6, c: Cidr)
    requires ValidCidr(c)
  {
    var pb := c.prefixLen / 8;
    addr[..pb] == c.addr[..pb]
    && (pb >= 16 || (addr[pb] ^ c.addr[pb]) & Mask(c.prefixLen % 8) == 0)
  }

  /** Any two IPv4-mapped addresses agree on their first 88 bits (ten zero bytes and one 0xFF). */
  lemma MappedShare88Bits(a: Ipv4, b: Ipv4)
    ensures PrefixMatches(MakeIpv4Mapped(a), Cidr(MakeIpv4Mapped(b), 88))
  {
    var ma, mb := MakeIpv4Mapped(a), MakeIpv4Mapped(b);
    assert ma[..11] == mb[..11];
  }

  /** The first `r` bits of two bytes agree. */
  predicate BitsAgree(x: byte, y: byte, r: nat)
    requires r <= 8
  {
    r == 0 || (BitsAgree(x, y, r - 1) && BitAt(x, r - 1) == BitAt(y, r - 1))
  }

  lemma {:induction false} BitsAgreeAll(x: byte, y: byte, r: nat)
    requires r <= 8
    ensures BitsAgree(x, y, r) <==> forall j | 0 <= j < r :: BitAt(x, j) == BitAt(y, j)
  {
    if r > 0 {
      BitsAgreeAll(x, y, r - 1);
    }
  }

  /** Two bytes are equal exactly when all eight bits agree. */
  lemma ByteBits(x: byte, y: byte)
    ensures x == y <==> BitsAgree(x, y, 8)
  {
    MaskBits(x, y, 7);
    assert Mask(7) == 0xFE;
    assert BitsAgree(x, y, 8) <==> BitsAgree(x, y, 7) && BitAt(x, 7) == BitAt(y, 7);
    assert x == y <==> (x ^ y) & 0xFE == 0 && BitAt(x, 7) == BitAt(y, 7);
  }

  /** The masked comparison of one byte tests exactly its first `r` bits. */
  lemma MaskBits(x: byte, y: byte, r: nat)
    requires r < 8
    ensures (x ^ y) & Mask(r) == 0 <==> BitsAgree(x, y, r)
  {
    if r == 0 {
      assert Mask(r) == 0;
    } else if r == 1 {
      assert Mask(r) == 0x80;
    } else if r == 2 {
      assert Mask(r) == 0xC0;
    } else if r == 3 {
      assert Mask(r) == 0xE0;
    } else if r == 4 {
      assert Mask(r) == 0xF0;
    } else if r == 5 {
      assert Mask(r) == 0xF8;
    } else if r == 6 {
      assert Mask(r) == 0xFC;
    } else {
      assert Mask(r) == 0xFE;
    }
  }

  /** Bit `i` of a string, for `i` inside byte `k`, is bit `i - 8 * k` of that byte. */
  lemma BitOfByte(a: Bytes, k: nat, i: nat)
    requires k < |a| && 8 * k <= i < 8 * k + 8
    ensures i < 8 * |a| && (Bit(a, i) <==> BitAt(a[k], i - 8 * k))
  {
    assert i / 8 == k && i % 8 == i - 8 * k;
  }

  /** The eight bits of byte `k` agree exactly when the bytes are equal. */
  lemma ByteBlockBits(a: Bytes, b: Bytes, k: nat)
    requires k < |a| && k < |b|
    ensures (forall i | 8 * k <= i < 8 * k + 8 :: Bit(a, i) == Bit(b, i)) <==> a[k] == b[k]
  {
    ByteBits(a[k], b[k]);
    BitsAgreeAll(a[k], b[k], 8);
    if a[k] == b[k] {
      forall i | 8 * k <= i < 8 * k + 8 ensures Bit(a, i) == Bit(b, i) {
        BitOfByte(a, k, i);
        BitOfByte(b, k, i);
      }
    } else {
      var j :| 0 <= j < 8 && BitAt(a[k], j) != BitAt(b[k], j);
      BitOfByte(a, k, 8 * k + j);
      BitOfByte(b, k, 8 * k + j);
    }
  }

  /** Equal leading bytes are the same as equal leading bits, eight per byte. */
  lemma {:induction false} BytesAreBits(a: Bytes, b: Bytes, k: nat)
    requires k <= |a| && k <= |b|
    ensures a[..k] == b[..k] <==> BitPrefix(a, b, 8 * k)
    decreases k
  {
    if k > 0 {
      BytesAreBits(a, b, k - 1);
      ByteBlockBits(a, b, k - 1);
      assert a[..k] == a[..k - 1] + [a[k - 1]] && b[..k] == b[..k - 1] + [b[k - 1]];
      if a[..k] == b[..k] {
        assert a[..k - 1] == b[..k - 1] && a[k - 1] == b[k - 1];
      }
    }
  }

  /** The leading `8 * k + r` bits: the whole bytes, then `r` bits of byte `k`. */
  lemma PartialByteBits(a: Bytes, b: Bytes, k: nat, r: nat)
    requires k < |a| && k < |b| && r < 8
    ensures BitPrefix(a, b, 8 * k + r) <==> BitPrefix(a, b, 8 * k) && BitsAgree(a[k], b[k], r)
  {
    BitsAgreeAll(a[k], b[k], r);
    if BitPrefix(a, b, 8 * k) && BitsAgree(a[k], b[k], r) {
      forall i | 8 * k <= i < 8 * k + r ensures Bit(a, i) == Bit(b, i) {
        BitOfByte(a, k, i);
        BitOfByte(b, k, i);
      }
    }
    if BitPrefix(a, b, 8 * k + r) {
      forall j | 0 <= j < r ensures BitAt(a[k], j) == BitAt(b[k], j) {
        BitOfByte(a, k, 8 * k + j);
        BitOfByte(b, k, 8 * k + j);
      }
    }
  }

  /**
   * The byte-and-mask test of `is_internal_host` is exactly "the first
   * `prefixLen` bits of the two addresses agree".
   */
  lemma PrefixMatchesIsBitPrefix(addr: Ipv6, c: Cidr)
    requires ValidCidr(c)
    ensures PrefixMatches(addr, c) <==> BitPrefix(addr, c.addr, c.prefixLen)
  {
    var p := c.prefixLen;
    var pb, r := p / 8, p % 8;
    assert p == 8 * pb + r;
    BytesAreBits(addr, c.addr, pb);
    if pb < 16 {
      MaskBits(addr[pb], c.addr[pb], r);
      PartialByteBits(addr, c.addr, pb, r);
    }
  }

  /** The bits of a mapped address: 80 zeros, 16 ones, then the IPv4 address. */
  lemma MappedBits(v4: Ipv4, i: nat)
    requires i < 32
    ensures Bit(MakeIpv4Mapped(v4), 96 + i) == Bit(v4, i)
  {
    var m := MakeIpv4Mapped(v4);
    assert (96 + i) / 8 == 12 + i / 8 && (96 + i) % 8 == i % 8;
    assert m[12 + i / 8] == v4[i / 8];
  }

  /** Two mapped addresses agree on their first 96 bits. */
  lemma MappedHead(a: Ipv4, b: Ipv4)
    ensures BitPrefix(MakeIpv4Mapped(a), MakeIpv4Mapped(b), 96)
  {
    var ma, mb := MakeIpv4Mapped(a), MakeIpv4Mapped(b);
    assert ma[..12] == mb[..12];
    BytesAreBits(ma, mb, 12);
  }

  /**
   * A mapped entry with prefix `96 + n` matches a mapped client exactly when
   * the first `n` bits of the two IPv4 addresses agree.
   */
  lemma MappedPrefix(a: Ipv4, b: Ipv4, n: nat)
    requires n <= 32
    ensures PrefixMatches(MakeIpv4Mapped(a), Cidr(MakeIpv4Mapped(b), 96 + n)) <==> BitPrefix(a, b, n)
  {
    var ma, mb := MakeIpv4Mapped(a), MakeIpv4Mapped(b);
    PrefixMatchesIsBitPrefix(ma, Cidr(mb, 96 + n));
    MappedHead(a, b);
    forall i | 0 <= i < n
      ensures Bit(ma, 96 + i) == Bit(a, i) && Bit(mb, 96 + i) == Bit(b, i)
    {
      MappedBits(a, i);
      MappedBits(b, i);
    }
    if BitPrefix(a, b, n) {
      forall i | 0 <= i < 96 + n ensures Bit(ma, i) == Bit(mb, i) {
        if i >= 96 {
          assert Bit(a, i - 96) == Bit(b, i - 96);
        }
      }
    }
    if BitPrefix(ma, mb, 96 + n) {
      forall i | 0 <= i < n ensures Bit(a, i) == Bit(b, i) {
        assert Bit(ma, 96 + i) == Bit(mb, 96 + i);
      }
    }
  }
}
