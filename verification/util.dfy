/**
 * util.hpp / util.cpp: `chomp`, `explicit_memzero` (its value effect only) and
 * `store_be64`, plus the byte and word types the hash modules share.
 */
module Util {

  type byte = bv8
  type Bytes = seq<byte>

  /** 2^64: `unsigned long long` and `size_t` wrap at this modulus. */
  const TWO_TO_64: int := 0x1_0000_0000_0000_0000

  /** A string's characters as the `unsigned char` bytes the source copies. */
  function ToBytes(s: string): (r: Bytes)
    ensures |r| == |s|
    ensures forall i | 0 <= i < |s| :: r[i] == CharByte(s[i])
  {
    if |s| == 0 then [] else [CharByte(s[0])] + ToBytes(s[1..])
  }

  /** The `unsigned char` value of a character: its code point modulo 256. */
  function CharByte(c: char): byte {
    (c as int % 256) as byte
  }

  lemma ToBytesAppend(a: string, b: string)
    ensures ToBytes(a + b) == ToBytes(a) + ToBytes(b)
  {
  }

  /** `n` zero bytes. */
  function Zeros(n: nat): (r: Bytes)
    ensures |r| == n
    ensures forall i | 0 <= i < n :: r[i] == 0
  {
    seq(n, i => 0)
  }

  /** The characters `chomp` removes from the end of a string. */
  predicate IsTrailingSpace(c: char) {
    c == ' ' || c == '\t' || c == '\r' || c == '\n'
  }

  /** `str.find_last_not_of(" \t\r\n")`, with -1 standing for `npos`. */
  function FindLastNotOf(s: string): (r: int)
    ensures -1 <= r < |s|
    ensures r >= 0 ==> !IsTrailingSpace(s[r])
    ensures forall i | r < i < |s| :: IsTrailingSpace(s[i])
  {
    if |s| == 0 then -1
    else if !IsTrailingSpace(s[|s| - 1]) then |s| - 1
    else FindLastNotOf(s[..|s| - 1])
  }

  /**
   * `chomp`: erase from one past the last character that is not a space, tab,
   * CR or LF; `npos + 1 == 0` makes an all-blank string empty.
   */
  function Chomp(s: string): (r: string)
    ensures r <= s
    ensures |r| > 0 ==> !IsTrailingSpace(r[|r| - 1])
    ensures forall i | |r| <= i < |s| :: IsTrailingSpace(s[i])
  {
    s[..FindLastNotOf(s) + 1]
  }

  /** An empty or all-blank string chomps to the empty string. */
  lemma ChompAllBlank(s: string)
    requires forall i | 0 <= i < |s| :: IsTrailingSpace(s[i])
    ensures Chomp(s) == ""
  {
  }

  /** `chomp` is idempotent. */
  lemma ChompIdempotent(s: string)
    ensures Chomp(Chomp(s)) == Chomp(s)
  {
    var r := Chomp(s);
    if |r| > 0 {
      assert FindLastNotOf(r) == |r| - 1;
    }
  }

  /**
   * The value effect of `explicit_memzero(s, n)`: the loop `while (n--) *p++ = 0;`
   * over the bytes of `s`.
   */
  method ExplicitMemzero(s: Bytes, n: nat) returns (r: Bytes)
    requires n <= |s|
    ensures |r| == |s|
    ensures forall i | 0 <= i < n :: r[i] == 0
    ensures forall i | n <= i < |s| :: r[i] == s[i]
  {
    r := s;
    var p := 0;
    var left := n;
    while left > 0
      invariant 0 <= p <= n && p + left == n
      invariant |r| == |s|
      invariant forall i | 0 <= i < p :: r[i] == 0
      invariant forall i | p <= i < |s| :: r[i] == s[i]
    {
      r := r[p := 0];
      p := p + 1;
      left := left - 1;
    }
  }

  /** Big-endian reading of eight bytes: the inverse of `store_be64`. */
  function LoadBe64(p: Bytes): bv64
    requires |p| >= 8
  {
    (p[0] as bv64 << 56) | (p[1] as bv64 << 48) | (p[2] as bv64 << 40) | (p[3] as bv64 << 32)
    | (p[4] as bv64 << 24) | (p[5] as bv64 << 16) | (p[6] as bv64 << 8) | (p[7] as bv64)
  }

  /** The low byte of a 64-bit word: the `unsigned char` assignment `p[k] = i`. */
  function Low8(i: bv64): byte {
    (i & 0xFF) as byte
  }

  /**
   * `store_be64(p, i)`: `p[7]` receives the low byte, then `i` is shifted right
   * by 8 before each of `p[6]`, ..., `p[0]`.
   */
  function StoreBe64(p: Bytes, i: bv64): (r: Bytes)
    requires |p| >= 8
    ensures |r| == |p|
    ensures r[8..] == p[8..]
    ensures LoadBe64(r) == i
    ensures r[0] as bv64 == i >> 56 && r[7] as bv64 == i & 0xFF
  {
    var r := p[7 := Low8(i)];
    var r := r[6 := Low8(i >> 8)];
    var r := r[5 := Low8(i >> 16)];
    var r := r[4 := Low8(i >> 24)];
    var r := r[3 := Low8(i >> 32)];
    var r := r[2 := Low8(i >> 40)];
    var r := r[1 := Low8(i >> 48)];
    var r := r[0 := Low8(i >> 56)];
    r
  }

  /** A sequence split around one element, seen from its first element. */
  lemma SplitAround<T>(pre: seq<T>, x: T, post: seq<T>)
    ensures |pre| == 0 ==> pre + [x] + post == [x] + post
    ensures |pre| > 0 ==> pre + [x] + post == [pre[0]] + (pre[1..] + [x] + post)
  {
    if |pre| > 0 {
      assert pre == [pre[0]] + pre[1..];
    }
  }
}
