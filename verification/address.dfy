/**
 * address.cpp: the BATV address grammar `loc-core+tag-type=tag-val@domain`
 * (`Batv_address::parse`), angle-bracket stripping (`canon_address`) and the
 * split of an address at its `@` (`split_address`).
 */
module Address {
  import opened Wrappers
  import opened Ascii

  /** `Email_address`: the text before the first `@` and the text after it. */
  datatype EmailAddress = EmailAddress(localPart: string, domain: string)

  /** The fields `Batv_address::parse` fills in. */
  datatype BatvAddress = BatvAddress(locCore: string, tagType: string, tagVal: string, domain: string)

  /** The characters `parse` lets into a tag type or tag value: `isdigit || isalpha || '-'`. */
  predicate IsTagChar(c: char) {
    IsDigit(c) || IsAlpha(c) || c == '-'
  }

  /** The characters the loc-core loop steps over: anything but `+`, `@` and NUL. */
  predicate IsLocChar(c: char) {
    c != '+' && c != '@' && c != '\0'
  }

  predicate AllTagChars(s: string) {
    forall i | 0 <= i < |s| :: IsTagChar(s[i])
  }

  /** Length of the longest prefix of `s` whose characters satisfy the loc-core loop. */
  function SpanLoc(s: string): (n: nat)
    ensures n <= |s|
    ensures forall i | 0 <= i < n :: IsLocChar(s[i])
    ensures n < |s| ==> !IsLocChar(s[n])
  {
    if |s| == 0 || !IsLocChar(s[0]) then 0 else 1 + SpanLoc(s[1..])
  }

  /** Length of the longest prefix of `s` made of tag characters. */
  function SpanTag(s: string): (n: nat)
    ensures n <= |s|
    ensures AllTagChars(s[..n])
    ensures n < |s| ==> !IsTagChar(s[n])
  {
    if |s| == 0 || !IsTagChar(s[0]) then 0
    else
      var n := 1 + SpanTag(s[1..]);
      assert forall i | 1 <= i < n :: s[..n][i] == s[1..][..n - 1][i - 1];
      n
  }

  predicate NoNul(s: string) {
    forall i | 0 <= i < |s| :: s[i] != '\0'
  }

  /**
   * What `parse` accepts: a loc-core free of `+`, `@` and NUL, tag fields of
   * tag characters (possibly empty), a NUL-free domain.
   */
  predicate WellFormed(a: BatvAddress) {
    (forall i | 0 <= i < |a.locCore| :: IsLocChar(a.locCore[i]))
    && AllTagChars(a.tagType) && AllTagChars(a.tagVal)
    && NoNul(a.domain)
  }

  /** The address text `loc-core+tag-type=tag-val@domain`. */
  function Format(a: BatvAddress): string {
    a.locCore + ['+'] + (a.tagType + ['='] + (a.tagVal + ['@'] + a.domain))
  }

  /** `s` cut around its `i`-th character. */
  lemma SplitAt(s: string, i: nat)
    requires i < |s|
    ensures s == s[..i] + [s[i]] + s[i + 1..]
  {
  }

  /**
   * `Batv_address::parse(p)`: the loc-core runs to the first `+`, `@` or end
   * and must stop at a `+`; the tag type must stop at `=`, the tag value at
   * `@`; the domain is the rest of the C string.
   */
  function Parse(addr: string): (r: Option<BatvAddress>)
    ensures r.Some? ==> WellFormed(r.value) && Format(r.value) == CStr(addr)
  {
    ParseText(CStr(addr))
  }

  /** `parse` on the characters of the C string `p`. */
  function ParseText(p: string): (r: Option<BatvAddress>)
    requires '\0' !in p
    ensures r.Some? ==> WellFormed(r.value) && Format(r.value) == p
  {
    var a := SpanLoc(p);
    if a == |p| || p[a] != '+' then None
    else
      var t := p[a + 1..];
      var b := SpanTag(t);
      if b == |t| || t[b] != '=' then None
      else
        var v := t[b + 1..];
        var c := SpanTag(v);
        if c == |v| || v[c] != '@' then None
        else
          SplitAt(p, a);
          SplitAt(t, b);
          SplitAt(v, c);
          Some(BatvAddress(p[..a], t[..b], v[..c], v[c + 1..]))
  }

  lemma NoNulFormat(a: BatvAddress)
    requires WellFormed(a)
    ensures NoNul(Format(a))
  {
    var v := a.tagVal + ['@'] + a.domain;
    var t := a.tagType + ['='] + v;
    assert NoNul(v);
    assert NoNul(t);
  }

  /** Every well-formed address is read back field for field. */
  lemma ParseFormat(a: BatvAddress)
    requires WellFormed(a)
    ensures Parse(Format(a)) == Some(a)
  {
    var p := Format(a);
    var v := a.tagVal + ['@'] + a.domain;
    var t := a.tagType + ['='] + v;
    NoNulFormat(a);
    assert CStr(p) == p;
    SpanLocOf(a.locCore, t);
    SpanTagOf(a.tagType, '=', v);
    SpanTagOf(a.tagVal, '@', a.domain);
    Pieces(a.locCore, '+', t);
    Pieces(a.tagType, '=', v);
    Pieces(a.tagVal, '@', a.domain);
  }

  /** The parts of `x + [c] + y` as `parse` cuts them. */
  lemma Pieces(x: string, c: char, y: string)
    ensures (x + [c] + y)[|x|] == c
    ensures (x + [c] + y)[..|x|] == x
    ensures (x + [c] + y)[|x| + 1..] == y
  {
  }

  lemma {:induction false} SpanLocOf(loc: string, rest: string)
    requires forall i | 0 <= i < |loc| :: IsLocChar(loc[i])
    ensures SpanLoc(loc + ['+'] + rest) == |loc|
    decreases |loc|
  {
    if |loc| > 0 {
      assert (loc + ['+'] + rest)[1..] == loc[1..] + ['+'] + rest;
      SpanLocOf(loc[1..], rest);
    }
  }

  lemma {:induction false} SpanTagOf(tag: string, stop: char, rest: string)
    requires AllTagChars(tag) && !IsTagChar(stop)
    ensures SpanTag(tag + [stop] + rest) == |tag|
    decreases |tag|
  {
    if |tag| > 0 {
      assert (tag + [stop] + rest)[1..] == tag[1..] + [stop] + rest;
      SpanTagOf(tag[1..], stop, rest);
    }
  }

  /** `parse` accepts exactly the C strings that are the text of a well-formed address. */
  lemma ParseAcceptsGrammar(addr: string, a: BatvAddress)
    requires WellFormed(a) && Format(a) == CStr(addr)
    ensures Parse(addr) == Some(a)
  {
    NoNulFormat(a);
    assert CStr(Format(a)) == Format(a);
    ParseFormat(a);
  }

  /** The sender address a BATV address wraps: `loc-core@domain`. */
  function OrigMailfrom(a: BatvAddress): (e: EmailAddress)
    ensures e.localPart == a.locCore && e.domain == a.domain
  {
    EmailAddress(a.locCore, a.domain)
  }

  /** How many `<`...`>` pairs the loop of `canon_address` strips from `s`. */
  function Depth(s: string): (k: nat)
    ensures 2 * k <= |s|
    ensures forall i | 0 <= i < k :: s[i] == '<'
    ensures forall i | |s| - k <= i < |s| :: s[i] == '>'
    ensures !(|s| - 2 * k >= 2 && s[k] == '<' && s[|s| - 1 - k] == '>')
    decreases |s|
  {
    if |s| >= 2 && s[0] == '<' && s[|s| - 1] == '>' then
      var inner := s[1..|s| - 1];
      var k := Depth(inner);
      assert forall i | 0 < i < |s| - 1 :: s[i] == inner[i - 1];
      assert |s| - 2 * (1 + k) >= 2 ==> s[1 + k] == inner[k] && s[|s| - 1 - (1 + k)] == inner[|inner| - 1 - k];
      1 + k
    else
      0
  }

  /**
   * `canon_address(addr)`: while the C string starts with `<` and ends with
   * `>`, drop one character from each end; what is left is the middle.
   */
  function CanonAddress(addr: string): (r: string)
    ensures var s := CStr(addr); r == s[Depth(s)..|s| - Depth(s)]
    ensures !(|r| >= 2 && r[0] == '<' && r[|r| - 1] == '>')
  {
    var s := CStr(addr);
    var k := Depth(s);
    s[k..|s| - k]
  }

  /** Stripping again strips nothing: the result has no pair left. */
  lemma CanonIdempotent(addr: string)
    ensures CanonAddress(CanonAddress(addr)) == CanonAddress(addr)
  {
    var r := CanonAddress(addr);
    assert CStr(r) == r;
    assert Depth(r) == 0;
  }

  /** The local part of a BATV address's text: `loc-core+tag-type=tag-val`. */
  function TaggedLocal(a: BatvAddress): string {
    a.locCore + ['+'] + (a.tagType + ['='] + a.tagVal)
  }

  /** The text of a well-formed address splits at the `@` before its domain. */
  lemma SplitFormat(a: BatvAddress)
    requires WellFormed(a) && a.domain != ""
    ensures var local := TaggedLocal(a);
      && Format(a) == local + "@" + a.domain
      && SplitAddress(Format(a)) == EmailAddress(local, a.domain)
      && MakeString(SplitAddress(Format(a))) == Format(a)
  {
    var local := a.locCore + ['+'] + (a.tagType + ['='] + a.tagVal);
    assert Format(a) == local + "@" + a.domain;
    assert '@' !in local by {
      assert forall i | 0 <= i < |local| :: local[i] in a.locCore || local[i] == '+' || local[i] in a.tagType || local[i] == '=' || local[i] in a.tagVal;
    }
    assert '\0' !in local by {
      assert forall i | 0 <= i < |local| :: local[i] in a.locCore || local[i] == '+' || local[i] in a.tagType || local[i] == '=' || local[i] in a.tagVal;
    }
    SplitMakeString(EmailAddress(local, a.domain));
  }

  /** `split_address`: at the first `@`, or the whole string and an empty domain. */
  function SplitAddress(str: string): (r: EmailAddress)
    ensures '@' !in r.localPart
    ensures '@' in CStr(str) ==> CStr(str) == r.localPart + "@" + r.domain
    ensures '@' !in CStr(str) ==> r == EmailAddress(CStr(str), "")
  {
    var s := CStr(str);
    match FindFirst(s, '@')
    case None => EmailAddress(s, "")
    case Some(i) =>
      assert s == s[..i] + "@" + s[i + 1..];
      EmailAddress(s[..i], s[i + 1..])
  }

  /**
   * `Email_address::make_string` (not part of this model's sources): the
   * local part, then `@` and the domain when there is one.
   */
  function MakeString(e: EmailAddress): string {
    if e.domain == "" then e.localPart else e.localPart + "@" + e.domain
  }

  /** Splitting the text of an address gives the address back. */
  lemma SplitMakeString(e: EmailAddress)
    requires '@' !in e.localPart && '\0' !in e.localPart && '\0' !in e.domain
    ensures SplitAddress(MakeString(e)) == e
  {
    if e.domain != "" {
      var s := MakeString(e);
      assert s[|e.localPart|] == '@';
      assert '\0' !in s by {
        assert forall i | 0 <= i < |s| :: s[i] in e.localPart || s[i] == '@' || s[i] in e.domain;
      }
      var r := SplitAddress(s);
      FirstAtUnique(r.localPart, r.domain, e.localPart, e.domain);
    }
  }

  /** The first `@` of a text splits it in one way only. */
  lemma FirstAtUnique(l1: string, d1: string, l2: string, d2: string)
    requires '@' !in l1 && '@' !in l2 && l1 + "@" + d1 == l2 + "@" + d2
    ensures l1 == l2 && d1 == d2
  {
    var s := l1 + "@" + d1;
    assert s[..|l1|] == l1 && s[..|l2|] == l2;
    FindFirstIs(s, '@', |l1|);
    FindFirstIs(s, '@', |l2|);
    assert l1 == s[..|l1|] == l2;
    assert d1 == s[|l1| + 1..] == d2;
  }
}
