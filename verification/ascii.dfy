/**
 * Character classes and string searches of the C library, restricted to the
 * "C" locale: `isdigit`, `isalpha`, `isspace`, `tolower`, `strcasecmp`,
 * `strchr`, `atoi` and the NUL terminator of a `const char*`.
 */
module Ascii {
  import opened Wrappers

  predicate IsDigit(c: char) {
    '0' <= c <= '9'
  }

  function DigitValue(c: char): nat
    requires IsDigit(c)
  {
    c as nat - '0' as nat
  }

  const DECIMAL: string := "0123456789"

  /** The decimal digit for `d`. */
  function DigitChar(d: nat): (c: char)
    requires d < 10
    ensures IsDigit(c) && DigitValue(c) == d
  {
    DECIMAL[d]
  }

  predicate IsAlpha(c: char) {
    ('a' <= c <= 'z') || ('A' <= c <= 'Z')
  }

  predicate IsHexDigit(c: char) {
    IsDigit(c) || ('a' <= c <= 'f') || ('A' <= c <= 'F')
  }

  /** `tolower` in the "C" locale: only 'A'..'Z' change. */
  function ToLower(c: char): (r: char)
    ensures 'A' <= c <= 'Z' ==> 'a' <= r <= 'z'
    ensures !('A' <= c <= 'Z') ==> r == c
  {
    if 'A' <= c <= 'Z' then (c as int + 32) as char else c
  }

  /** `strcasecmp(a, b) == 0`. */
  predicate EqualsIgnoreCase(a: string, b: string) {
    |a| == |b| && forall i | 0 <= i < |a| :: ToLower(a[i]) == ToLower(b[i])
  }

  /** `strncmp(s, p, |p|) == 0` for a NUL-free prefix `p`. */
  predicate StartsWith(s: string, p: string) {
    |p| <= |s| && s[..|p|] == p
  }

  /** Index of the first occurrence of `c` in `s` (`strchr`, `std::string::find`). */
  function FindFirst(s: string, c: char): (r: Option<nat>)
    ensures r.None? <==> c !in s
    ensures r.Some? ==> r.value < |s| && s[r.value] == c && c !in s[..r.value]
  {
    if |s| == 0 then None
    else if s[0] == c then Some(0)
    else
      match FindFirst(s[1..], c)
      case None => None
      case Some(i) => assert s[1..][..i] == s[1..i + 1]; Some(i + 1)
  }

  /** The first occurrence is the index where `c` stands with no `c` before it. */
  lemma {:induction false} FindFirstIs(s: string, c: char, k: nat)
    requires k < |s| && s[k] == c && c !in s[..k]
    ensures FindFirst(s, c) == Some(k)
    decreases k
  {
    if k > 0 {
      assert s[0] == s[..k][0];
      var t := s[1..][..k - 1];
      forall i | 0 <= i < |t| ensures t[i] != c {
        assert t[i] == s[..k][i + 1];
      }
      FindFirstIs(s[1..], c, k - 1);
    }
  }

  /** The characters a `const char*` view of `s` sees: everything before the first NUL. */
  function CStr(s: string): (r: string)
    ensures r <= s
    ensures '\0' !in r
    ensures '\0' !in s ==> r == s
    ensures |r| < |s| ==> s[|r|] == '\0'
  {
    match FindFirst(s, '\0')
    case None => s
    case Some(i) => s[..i]
  }

  /** `isspace` in the "C" locale. */
  predicate IsSpace(c: char) {
    c == ' ' || c == '\t' || c == '\n' || c == '\U{B}' || c == '\U{C}' || c == '\r'
  }

  /** Length of the longest prefix of `s` whose characters satisfy `isspace`. */
  function SpanSpace(s: string): (n: nat)
    ensures n <= |s|
    ensures forall i | 0 <= i < n :: IsSpace(s[i])
    ensures n < |s| ==> !IsSpace(s[n])
  {
    if |s| == 0 || !IsSpace(s[0]) then 0 else 1 + SpanSpace(s[1..])
  }

  /** Length of the longest prefix of `s` made of decimal digits. */
  function SpanDigits(s: string): (n: nat)
    ensures n <= |s|
    ensures forall i | 0 <= i < n :: IsDigit(s[i])
    ensures n < |s| ==> !IsDigit(s[n])
  {
    if |s| == 0 || !IsDigit(s[0]) then 0 else 1 + SpanDigits(s[1..])
  }

  /** The number a string of decimal digits denotes, most significant first. */
  function DecValue(ds: string): nat
    requires forall i | 0 <= i < |ds| :: IsDigit(ds[i])
  {
    if ds == [] then 0 else DecValue(ds[..|ds| - 1]) * 10 + DigitValue(ds[|ds| - 1])
  }

  /** The value of the leading digits of `s`. */
  function LeadingValue(s: string): nat {
    DecValue(s[..SpanDigits(s)])
  }

  /**
   * `atoi`: leading white space, an optional sign, then as many digits as
   * follow. Text with no digits gives 0.
   */
  function Atoi(s: string): (n: int)
    ensures (forall i | 0 <= i < |s| :: IsDigit(s[i])) ==> n == DecValue(s)
  {
    var t := s[SpanSpace(s)..];
    assert (forall i | 0 <= i < |s| :: IsDigit(s[i])) ==> SpanSpace(s) == 0 && SpanDigits(t) == |t| && t[..SpanDigits(t)] == s;
    if |t| > 0 && t[0] == '-' then 0 - LeadingValue(t[1..]) as int
    else if |t| > 0 && t[0] == '+' then LeadingValue(t[1..])
    else LeadingValue(t)
  }

  /** The decimal text of `n` without leading zeros (`"0"` for zero). */
  function Decimal(n: nat): (s: string)
    ensures |s| > 0 && forall i | 0 <= i < |s| :: IsDigit(s[i])
    decreases n
  {
    if n < 10 then [DigitChar(n)] else Decimal(n / 10) + [DigitChar(n % 10)]
  }

  /** Reading back the decimal text of a number gives the number. */
  lemma {:induction false} DecValueDecimal(n: nat)
    ensures DecValue(Decimal(n)) == n
    decreases n
  {
    var s := Decimal(n);
    if n < 10 {
      assert s[..|s| - 1] == [];
    } else {
      assert s[..|s| - 1] == Decimal(n / 10);
      DecValueDecimal(n / 10);
    }
  }

  /** `atoi` inverts decimal rendering, with and without a minus sign. */
  lemma AtoiDecimal(n: nat)
    ensures Atoi(Decimal(n)) == n
    ensures Atoi("-" + Decimal(n)) == 0 - n as int
  {
    DecValueDecimal(n);
    var m := "-" + Decimal(n);
    assert SpanSpace(m) == 0;
    assert m[0..] == m && m[1..] == Decimal(n);
    assert SpanDigits(Decimal(n)) == |Decimal(n)|;
    assert Decimal(n)[..|Decimal(n)|] == Decimal(n);
  }
}
