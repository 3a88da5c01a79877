/**
 * config.cpp with the milter's `batv::Config` (config-milter.hpp) and the
 * older `batv_milter::Config` (config.hpp): field defaults, the directives
 * of `Config::set`, `parse_cidr_string` after `inet_pton`,
 * `is_internal_host`, `get_key` and `validate`.
 */
module Config {
  import opened Wrappers
  import opened Ascii
  import opened Util
  import opened Cidr
  import Keys

  /** `Config::Failure_mode`: what to answer when an internal error happens. */
  datatype FailureMode = Tempfail | Accept | Reject

  /**
   * The fields of `Common_config` that config.cpp and verify.cpp read
   * (`Common_config` itself is not part of this model).
   */
  datatype CommonConfig = CommonConfig(keys: Keys.KeyMap, addressLifetime: int, subAddressDelimiter: char)

  /** `batv::Config` of config-milter.hpp. */
  datatype MilterConfig = MilterConfig(
    common: CommonConfig,
    daemon: bool,
    debug: int,
    pidFile: string,
    userName: string,
    groupName: string,
    socketSpec: string,
    socketMode: int,
    doSign: bool,
    doVerify: bool,
    internalHosts: seq<Cidr>,
    onInternalError: FailureMode)

  /** `batv_milter::Config` of config.hpp. */
  datatype SenderConfig = SenderConfig(
    daemon: bool,
    debug: int,
    pidFile: string,
    socketSpec: string,
    doSign: bool,
    doVerify: bool,
    internalHosts: seq<Cidr>,
    batvSenders: set<string>,
    addressLifetime: nat,
    key: Bytes,
    subAddressDelimiter: char)

  /** The `batv_milter::Config` constructor: the fields it assigns, the rest empty. */
  function DefaultSenderConfig(): (c: SenderConfig)
    ensures !c.daemon && c.debug == 0
    ensures c.doSign && c.doVerify
    ensures c.addressLifetime == 7
    ensures c.subAddressDelimiter == '\0'
  {
    SenderConfig(false, 0, "", "", true, true, [], {}, 7, [], '\0')
  }

  /**
   * The `batv::Config` constructor. The `Common_config` part starts from an
   * empty key map, lifetime 7 and no delimiter, the values config.hpp gives.
   */
  function DefaultConfig(): (c: MilterConfig)
    ensures !c.daemon && c.debug == 0
    ensures c.socketMode == -1
    ensures c.doSign && c.doVerify
    ensures c.onInternalError == Tempfail
    ensures c.internalHosts == [] && c.common.keys == map[]
  {
    MilterConfig(CommonConfig(map[], 7, '\0'), false, 0, "", "", "", "", -1, true, true, [], Tempfail)
  }

  /** Every internal-host entry came out of `parse_cidr_string`. */
  predicate ValidConfig(c: MilterConfig) {
    forall i | 0 <= i < |c.internalHosts| :: ValidCidr(c.internalHosts[i])
  }

  /** `inet_pton` for each family: the text of an address to its bytes, if it is one. */
  type Pton6 = string -> Option<Ipv6>
  type Pton4 = string -> Option<Ipv4>

  /** The text before the first `/` and the `atoi` of the text after it, `-1` without a `/`. */
  function SplitPrefix(s: string): (r: (string, int))
    ensures '/' !in s ==> r == (s, -1)
    ensures '/' in s ==> |r.0| < |s| && r.0 == s[..|r.0|] && s[|r.0|] == '/' && '/' !in r.0 && r.1 == Atoi(s[|r.0| + 1..])
  {
    match FindFirst(s, '/')
    case None => (s, -1)
    case Some(i) => (s[..i], Atoi(s[i + 1..]))
  }

  /** The final range check of `parse_cidr_string`. */
  function CheckPrefix(str: string, addr: Ipv6, prefixLen: int): (r: Result<Cidr>)
    ensures r.Success? <==> 0 <= prefixLen <= 128
    ensures r.Success? ==> r.value == Cidr(addr, prefixLen) && ValidCidr(r.value)
  {
    if prefixLen < 0 || prefixLen > 128 then Failure("Invalid prefix length in CIDR string: " + str)
    else Success(Cidr(addr, prefixLen))
  }

  /**
   * `parse_cidr_string(str)` as written: an address containing `:` is IPv6,
   * anything else IPv4 (mapped, its prefix shifted by 96); a missing prefix
   * (`atoi` result -1) is 128; the result must lie in 0..128.
   */
  function ParseCidr(str: string, pton6: Pton6, pton4: Pton4): (r: Result<Cidr>)
    ensures r.Success? ==> ValidCidr(r.value)
  {
    var s := CStr(str);
    var (addrStr, prefix) := SplitPrefix(s);
    if ':' in addrStr then
      match pton6(addrStr)
      case None => Failure("Invalid IPv6 address: " + addrStr)
      case Some(a) => CheckPrefix(s, a, if prefix == -1 then 128 else prefix)
    else
      match pton4(addrStr)
      case None => Failure("Invalid IPv4 address: " + addrStr)
      case Some(a) => CheckPrefix(s, MakeIpv4Mapped(a), if prefix == -1 then 128 else 96 + prefix)
  }

  /**
   * `parse_cidr_string` with the prefix checked in the address family's own
   * range: 0..128 for IPv6, 0..32 for IPv4, and an explicit prefix never
   * confused with a missing one.
   */
  function ParseCidrChecked(str: string, pton6: Pton6, pton4: Pton4): (r: Result<Cidr>)
    ensures r.Success? ==> ValidCidr(r.value)
  {
    var s := CStr(str);
    var (addrStr, prefix) := SplitPrefix(s);
    var explicit := '/' in s;
    if ':' in addrStr then
      match pton6(addrStr)
      case None => Failure("Invalid IPv6 address: " + addrStr)
      case Some(a) => CheckPrefix(s, a, if explicit then prefix else 128)
    else
      match pton4(addrStr)
      case None => Failure("Invalid IPv4 address: " + addrStr)
      case Some(a) =>
        if explicit && (prefix < 0 || prefix > 32) then Failure("Invalid prefix length in CIDR string: " + s)
        else CheckPrefix(s, MakeIpv4Mapped(a), if explicit then 96 + prefix else 128)
  }

  /** `addr` followed by `/n` in decimal. */
  function WithPrefix(addr: string, n: int): string {
    addr + "/" + (if n < 0 then "-" + Decimal(-n) else Decimal(n))
  }

  /** The text after the `/` of `addr/n` is read back as `n`. */
  lemma SplitWithPrefix(addr: string, n: int)
    requires '/' !in addr
    ensures '/' in WithPrefix(addr, n)
    ensures SplitPrefix(WithPrefix(addr, n)) == (addr, n)
  {
    var s := WithPrefix(addr, n);
    var digits := if n < 0 then "-" + Decimal(-n) else Decimal(n);
    assert s[|addr|] == '/';
    AtoiDecimal(if n < 0 then -n else n);
    assert s[..|addr|] == addr;
    FindFirstIs(s, '/', |addr|);
    assert s[|addr| + 1..] == digits;
  }

  /** `addr/n` with the NUL-free parts `parse_cidr_string` sees. */
  predicate PlainText(s: string) {
    '\0' !in s && '/' !in s
  }

  lemma NoNulWithPrefix(addr: string, n: int)
    requires PlainText(addr)
    ensures CStr(WithPrefix(addr, n)) == WithPrefix(addr, n)
  {
    var s := WithPrefix(addr, n);
    var digits := if n < 0 then "-" + Decimal(-n) else Decimal(n);
    assert '\0' !in digits;
    assert forall i | 0 <= i < |s| :: s[i] in addr || s[i] == '/' || s[i] in digits;
  }

  /** As written, an IPv4 prefix `/n` with `-96 <= n <= 32` becomes `96 + n`, negative `n` included. */
  lemma ParseCidrIpv4(addr: string, n: int, pton6: Pton6, pton4: Pton4)
    requires PlainText(addr) && ':' !in addr && pton4(addr).Some?
    requires n != -1
    ensures ParseCidr(WithPrefix(addr, n), pton6, pton4).Success? <==> -96 <= n <= 32
    ensures -96 <= n <= 32 ==> ParseCidr(WithPrefix(addr, n), pton6, pton4).value == Cidr(MakeIpv4Mapped(pton4(addr).value), 96 + n)
  {
    SplitWithPrefix(addr, n);
    NoNulWithPrefix(addr, n);
  }

  /** `10.0.0.0/-8` is accepted as prefix 88, which covers every IPv4 client. */
  lemma NegativeIpv4PrefixCoversAll(addr: string, pton6: Pton6, pton4: Pton4, client: Ipv4)
    requires PlainText(addr) && ':' !in addr && pton4(addr).Some?
    ensures ParseCidr(WithPrefix(addr, -8), pton6, pton4).Success?
    ensures PrefixMatches(MakeIpv4Mapped(client), ParseCidr(WithPrefix(addr, -8), pton6, pton4).value)
  {
    ParseCidrIpv4(addr, -8, pton6, pton4);
    MappedShare88Bits(client, pton4(addr).value);
  }

  /** In the checked parse an IPv4 prefix outside 0..32 is an error, and `/n` inside gives `96 + n`. */
  lemma ParseCidrCheckedIpv4(addr: string, n: int, pton6: Pton6, pton4: Pton4)
    requires PlainText(addr) && ':' !in addr && pton4(addr).Some?
    ensures ParseCidrChecked(WithPrefix(addr, n), pton6, pton4).Success? <==> 0 <= n <= 32
    ensures 0 <= n <= 32 ==> ParseCidrChecked(WithPrefix(addr, n), pton6, pton4).value == Cidr(MakeIpv4Mapped(pton4(addr).value), 96 + n)
  {
    SplitWithPrefix(addr, n);
    NoNulWithPrefix(addr, n);
  }

  /** In the checked parse an IPv6 prefix is accepted exactly in 0..128, with no special value. */
  lemma ParseCidrCheckedIpv6(addr: string, n: int, pton6: Pton6, pton4: Pton4)
    requires PlainText(addr) && ':' in addr && pton6(addr).Some?
    ensures ParseCidrChecked(WithPrefix(addr, n), pton6, pton4).Success? <==> 0 <= n <= 128
    ensures 0 <= n <= 128 ==> ParseCidrChecked(WithPrefix(addr, n), pton6, pton4).value == Cidr(pton6(addr).value, n)
  {
    SplitWithPrefix(addr, n);
    NoNulWithPrefix(addr, n);
  }

  /** Without a `/`, both parses give the whole address (prefix 128). */
  lemma ParseCidrNoPrefix(addr: string, pton6: Pton6, pton4: Pton4)
    requires PlainText(addr)
    ensures ':' in addr && pton6(addr).Some? ==> ParseCidr(addr, pton6, pton4) == Success(Cidr(pton6(addr).value, 128))
    ensures ':' !in addr && pton4(addr).Some? ==> ParseCidr(addr, pton6, pton4) == Success(Cidr(MakeIpv4Mapped(pton4(addr).value), 128))
    ensures ParseCidrChecked(addr, pton6, pton4) == ParseCidr(addr, pton6, pton4)
  {
  }

  /** `Config::is_internal_host(in6_addr)`: some entry matches. */
  function IsInternalHost(c: MilterConfig, addr: Ipv6): (r: bool)
    requires ValidConfig(c)
    ensures r <==> exists i | 0 <= i < |c.internalHosts| :: PrefixMatches(addr, c.internalHosts[i])
  {
    AnyMatch(c.internalHosts, addr)
  }

  /** The loop over `internal_hosts`, first entry first. */
  function AnyMatch(hosts: seq<Cidr>, addr: Ipv6): (r: bool)
    requires forall i | 0 <= i < |hosts| :: ValidCidr(hosts[i])
    ensures r <==> exists i | 0 <= i < |hosts| :: PrefixMatches(addr, hosts[i])
  {
    if |hosts| == 0 then false
    else if PrefixMatches(addr, hosts[0]) then true
    else
      var r := AnyMatch(hosts[1..], addr);
      assert forall i | 1 <= i < |hosts| :: hosts[i] == hosts[1..][i - 1];
      r
  }

  /** `Config::is_internal_host(in_addr)`: the test on the IPv4-mapped address. */
  function IsInternalHost4(c: MilterConfig, addr: Ipv4): (r: bool)
    requires ValidConfig(c)
    ensures r <==> exists i | 0 <= i < |c.internalHosts| :: PrefixMatches(MakeIpv4Mapped(addr), c.internalHosts[i])
  {
    IsInternalHost(c, MakeIpv4Mapped(addr))
  }

  /** A host is internal exactly when its leading bits agree with some entry's prefix. */
  lemma InternalHostIsBitPrefix(c: MilterConfig, addr: Ipv6)
    requires ValidConfig(c)
    ensures IsInternalHost(c, addr) <==>
      exists i | 0 <= i < |c.internalHosts| :: BitPrefix(addr, c.internalHosts[i].addr, c.internalHosts[i].prefixLen)
  {
    forall i | 0 <= i < |c.internalHosts|
      ensures PrefixMatches(addr, c.internalHosts[i]) <==> BitPrefix(addr, c.internalHosts[i].addr, c.internalHosts[i].prefixLen)
    {
      PrefixMatchesIsBitPrefix(addr, c.internalHosts[i]);
    }
  }

  /** An IPv4 client is internal under an entry `a.b.c.d/n` exactly when its first `n` bits agree. */
  lemma InternalHost4Entry(c: MilterConfig, client: Ipv4, net: Ipv4, n: nat)
    requires n <= 32 && c.internalHosts == [Cidr(MakeIpv4Mapped(net), 96 + n)]
    ensures IsInternalHost4(c, client) <==> BitPrefix(client, net, n)
  {
    MappedPrefix(client, net, n);
  }

  /** `Config::get_key`: the same exact-then-domain lookup as key.cpp, on the configured map. */
  function GetKey(c: MilterConfig, addr: string): (r: Option<Bytes>)
    ensures r.Some? ==> r.value != []
    ensures addr in c.common.keys ==> (r.Some? <==> c.common.keys[addr] != []) && (r.Some? ==> r.value == c.common.keys[addr])
    ensures addr !in c.common.keys && '@' !in addr ==> r.None?
  {
    Keys.GetKey(c.common.keys, addr)
  }

  /** What a directive does: change the configuration, or read another file (outside this model). */
  datatype SetEffect = Updated(config: MilterConfig) | IncludeConfig(path: string) | LoadKeyMap(path: string)

  predicate IsOctalDigit(c: char) {
    '0' <= c <= '7'
  }

  const DIRECTIVES: set<string> := {
    "daemon", "debug", "pid-file", "config", "socket", "socket-mode", "mode", "lifetime",
    "internal-host", "sub-address-delimiter", "key-map", "on-internal-error"
  }

  /** The value of an octal digit. */
  function OctalValue(c: char): (v: nat)
    requires IsOctalDigit(c)
    ensures v < 8
  {
    c as nat - '0' as nat
  }

  /**
   * `socket-mode`: exactly three octal digits; the mode is
   * `(d0 << 6) | (d1 << 3) | d2`, whose three-bit fields do not overlap, so
   * the ORs are sums.
   */
  function SetSocketMode(c: MilterConfig, value: string): (r: Result<SetEffect>)
    ensures r.Success? <==> |value| == 3 && IsOctalDigit(value[0]) && IsOctalDigit(value[1]) && IsOctalDigit(value[2])
    ensures r.Success? ==> r.value.Updated? && r.value.config == c.(socketMode := r.value.config.socketMode)
    ensures r.Success? ==> 0 <= r.value.config.socketMode < 512
  {
    if |value| != 3 || !IsOctalDigit(value[0]) || !IsOctalDigit(value[1]) || !IsOctalDigit(value[2]) then
      Failure("Invalid socket mode (not a 3 digit octal number): " + value)
    else
      Success(Updated(c.(socketMode := OctalValue(value[0]) * 64 + OctalValue(value[1]) * 8 + OctalValue(value[2]))))
  }

  /** `mode`: `sign`, `verify` or `both`. */
  function SetMode(c: MilterConfig, value: string): (r: Result<SetEffect>)
    ensures r.Success? <==> value == "sign" || value == "verify" || value == "both"
    ensures r.Success? ==> r.value == Updated(c.(doSign := value != "verify", doVerify := value != "sign"))
  {
    if value == "sign" then Success(Updated(c.(doSign := true, doVerify := false)))
    else if value == "verify" then Success(Updated(c.(doVerify := true, doSign := false)))
    else if value == "both" then Success(Updated(c.(doVerify := true, doSign := true)))
    else Failure("Invalid mode " + value)
  }

  /** `lifetime`: `atoi` of the value, which must lie in 1..999. */
  function SetLifetime(c: MilterConfig, value: string): (r: Result<SetEffect>)
    ensures r.Success? <==> 1 <= Atoi(CStr(value)) <= 999
    ensures r.Success? ==> r.value.Updated? && r.value.config == c.(common := c.common.(addressLifetime := r.value.config.common.addressLifetime))
    ensures r.Success? ==> r.value.config.common.addressLifetime == Atoi(CStr(value))
  {
    var lifetime := Atoi(CStr(value));
    if lifetime < 1 || lifetime > 999 then
      Failure("Invalid address lifetime " + value + " (must be between 1 and 999, inclusive)")
    else
      Success(Updated(c.(common := c.common.(addressLifetime := lifetime))))
  }

  /** `daemon`: one of the four spellings of true or of false. */
  function SetDaemon(c: MilterConfig, value: string): (r: Result<SetEffect>)
    ensures r.Success? <==> value in {"yes", "true", "on", "1", "no", "false", "off", "0"}
    ensures r.Success? ==> r.value == Updated(c.(daemon := value in {"yes", "true", "on", "1"}))
  {
    if value in {"yes", "true", "on", "1"} then Success(Updated(c.(daemon := true)))
    else if value in {"no", "false", "off", "0"} then Success(Updated(c.(daemon := false)))
    else Failure("Invalid boolean value " + value)
  }

  /** `on-internal-error`: `tempfail`, `accept` or `reject`. */
  function SetOnInternalError(c: MilterConfig, value: string): (r: Result<SetEffect>)
    ensures r.Success? <==> value in {"tempfail", "accept", "reject"}
    ensures r.Success? ==> r.value.Updated? && r.value.config == c.(onInternalError := r.value.config.onInternalError)
    ensures value == "accept" ==> r == Success(Updated(c.(onInternalError := Accept)))
    ensures value == "reject" ==> r == Success(Updated(c.(onInternalError := Reject)))
  {
    if value == "tempfail" then Success(Updated(c.(onInternalError := Tempfail)))
    else if value == "accept" then Success(Updated(c.(onInternalError := Accept)))
    else if value == "reject" then Success(Updated(c.(onInternalError := Reject)))
    else Failure("Invalid value for 'on-internal-error' directive (should be 'tempfail', 'accept', or 'reject'): " + value)
  }

  /** `sub-address-delimiter`: exactly one character. */
  function SetDelimiter(c: MilterConfig, value: string): (r: Result<SetEffect>)
    ensures r.Success? <==> |value| == 1
    ensures r.Success? ==> r.value == Updated(c.(common := c.common.(subAddressDelimiter := value[0])))
  {
    if |value| != 1 then Failure("Sub address delimiter must be exactly one character")
    else Success(Updated(c.(common := c.common.(subAddressDelimiter := value[0]))))
  }

  /**
   * `internal-host` as written: one more CIDR entry at the end of the list,
   * parsed by `parse_cidr_string`, so a negative IPv4 prefix is kept.
   */
  function AddInternalHost(c: MilterConfig, value: string, pton6: Pton6, pton4: Pton4): (r: Result<SetEffect>)
    requires ValidConfig(c)
    ensures r.Success? <==> ParseCidr(value, pton6, pton4).Success?
    ensures r.Success? ==> r.value.Updated? && ValidConfig(r.value.config)
    ensures r.Success? ==> r.value.config == c.(internalHosts := c.internalHosts + [ParseCidr(value, pton6, pton4).value])
  {
    match ParseCidr(value, pton6, pton4)
    case Failure(e) => Failure(e)
    case Success(cidr) => Success(Updated(c.(internalHosts := c.internalHosts + [cidr])))
  }

  /** `internal-host` with the prefix range checked on both families. */
  function AddInternalHostChecked(c: MilterConfig, value: string, pton6: Pton6, pton4: Pton4): (r: Result<SetEffect>)
    requires ValidConfig(c)
    ensures r.Success? <==> ParseCidrChecked(value, pton6, pton4).Success?
    ensures r.Success? ==> r.value.Updated? && ValidConfig(r.value.config)
    ensures r.Success? ==> r.value.config == c.(internalHosts := c.internalHosts + [ParseCidrChecked(value, pton6, pton4).value])
  {
    match ParseCidrChecked(value, pton6, pton4)
    case Failure(e) => Failure(e)
    case Success(cidr) => Success(Updated(c.(internalHosts := c.internalHosts + [cidr])))
  }

  /** `Config::set(directive, value)`; errors are `Config::Error` with the source's message. */
  function Set(c: MilterConfig, directive: string, value: string, pton6: Pton6, pton4: Pton4): (r: Result<SetEffect>)
    requires ValidConfig(c)
    ensures directive !in DIRECTIVES ==> r.Failure?
    ensures r.Success? && r.value.Updated? ==> ValidConfig(r.value.config) && r.value.config.common.keys == c.common.keys
    ensures r.Success? && !r.value.Updated? <==> directive == "config" || directive == "key-map"
    ensures directive == "config" ==> r == Success(IncludeConfig(CStr(value)))
    ensures directive == "key-map" ==> r == Success(LoadKeyMap(CStr(value)))
  {
    if directive == "daemon" then SetDaemon(c, value)
    else if directive == "debug" then Success(Updated(c.(debug := Atoi(CStr(value)))))
    else if directive == "pid-file" then Success(Updated(c.(pidFile := value)))
    else if directive == "config" then Success(IncludeConfig(CStr(value)))
    else if directive == "socket" then Success(Updated(c.(socketSpec := value)))
    else if directive == "socket-mode" then SetSocketMode(c, value)
    else if directive == "mode" then SetMode(c, value)
    else if directive == "lifetime" then SetLifetime(c, value)
    else if directive == "internal-host" then AddInternalHost(c, value, pton6, pton4)
    else if directive == "sub-address-delimiter" then SetDelimiter(c, value)
    else if directive == "key-map" then Success(LoadKeyMap(CStr(value)))
    else if directive == "on-internal-error" then SetOnInternalError(c, value)
    else Failure("Invalid config directive " + directive)
  }

  /**
   * An `internal-host 10.0.0.0/-8` line is taken: the list grows by a
   * prefix-88 entry, which matches every IPv4 client. The checked
   * directive refuses the same line.
   */
  lemma SetNegativeInternalHost(c: MilterConfig, addr: string, pton6: Pton6, pton4: Pton4)
    requires ValidConfig(c)
    requires PlainText(addr) && ':' !in addr && pton4(addr).Some?
    ensures Set(c, "internal-host", WithPrefix(addr, -8), pton6, pton4)
         == Success(Updated(c.(internalHosts := c.internalHosts + [Cidr(MakeIpv4Mapped(pton4(addr).value), 88)])))
    ensures AddInternalHostChecked(c, WithPrefix(addr, -8), pton6, pton4).Failure?
  {
    ParseCidrIpv4(addr, -8, pton6, pton4);
    ParseCidrCheckedIpv4(addr, -8, pton6, pton4);
  }

  /** The three-digit octal text of a mode below 512. */
  function OctalText(m: nat): (s: string)
    requires m < 512
  {
    [(('0' as int) + m / 64) as char, (('0' as int) + m / 8 % 8) as char, (('0' as int) + m % 8) as char]
  }

  /** `socket-mode` reads back the mode written as three octal digits. */
  lemma SetSocketModeOctal(c: MilterConfig, m: nat, pton6: Pton6, pton4: Pton4)
    requires ValidConfig(c) && m < 512
    ensures Set(c, "socket-mode", OctalText(m), pton6, pton4) == Success(Updated(c.(socketMode := m)))
    ensures Set(c, "socket-mode", OctalText(m), pton6, pton4) == SetSocketMode(c, OctalText(m))
  {
    OctalTextReadsBack(m);
  }

  /** Three octal digits of `m`, read back digit by digit, give `m`. */
  lemma OctalTextReadsBack(m: nat)
    requires m < 512
    ensures var s := OctalText(m);
      && |s| == 3 && IsOctalDigit(s[0]) && IsOctalDigit(s[1]) && IsOctalDigit(s[2])
      && OctalValue(s[0]) * 64 + OctalValue(s[1]) * 8 + OctalValue(s[2]) == m
  {
    var s := OctalText(m);
    assert 64 * (m / 64) + 8 * (m / 8 % 8) + m % 8 == m by {
      assert m == 8 * (m / 8) + m % 8;
      assert m / 8 == 8 * (m / 64) + m / 8 % 8;
    }
    assert OctalValue(s[0]) == m / 64 && OctalValue(s[1]) == m / 8 % 8 && OctalValue(s[2]) == m % 8;
  }

  /** `Config::validate`: the error it raises, if any. */
  function Validate(c: MilterConfig): (r: Option<string>)
    ensures r.None? <==> c.socketSpec != "" && c.common.keys != map[]
    ensures c.socketSpec == "" ==> r == Some("Milter socket not specified")
  {
    if c.socketSpec == "" then Some("Milter socket not specified")
    else if c.common.keys == map[] then Some("No keys specified")
    else None
  }

  /** The defaults alone never pass validation: a socket and keys must be configured. */
  lemma DefaultNeedsSocketAndKeys(socket: string, keys: Keys.KeyMap)
    ensures Validate(DefaultConfig()).Some?
    ensures Validate(DefaultConfig().(socketSpec := socket, common := DefaultConfig().common.(keys := keys))).None?
        <==> socket != "" && keys != map[]
  {
  }
}
