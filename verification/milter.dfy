/**
 * batv-milter.cpp: the per-connection state of the milter and the decisions
 * of its callbacks. Each libmilter call the callbacks make becomes an
 * `Action`; which call fails, if any, is a parameter.
 */
module Milter {
  import opened Wrappers
  import opened Util
  import opened Ascii
  import opened Address
  import Cidr
  import Config
  import Prvs
  import Verify
  import opened MessageHeaders

  /** The `sfsistat` values the callbacks return. */
  datatype Status = Continue | Tempfail | Accept | Reject

  /** `milter_status(failure_mode)`. */
  function MilterStatus(mode: Config.FailureMode): (s: Status)
    ensures s != Continue
    ensures mode == Config.Tempfail <==> s == Tempfail
    ensures mode == Config.Accept <==> s == Accept
    ensures mode == Config.Reject <==> s == Reject
  {
    match mode
    case Tempfail => Tempfail
    case Accept => Accept
    case Reject => Reject
  }

  /** `Batv_context`: connection state, then message state. */
  datatype Context = Context(
    clientIsInternal: bool,
    numStatusHeaders: Prvs.UInt,
    envFrom: EmailAddress,
    isBatvRcpt: bool,
    batvRcpt: BatvAddress,
    batvRcptString: string,
    batvRcptKey: Option<Bytes>)

  /** The fields that describe the BATV recipient are valid whenever `is_batv_rcpt` is set. */
  predicate Consistent(ctx: Context) {
    ctx.isBatvRcpt ==> ctx.batvRcptKey.Some? && ctx.batvRcpt.tagType == "prvs"
  }

  const NO_ADDRESS := EmailAddress("", "")

  /** The `Batv_context` constructor. */
  function NewContext(): (ctx: Context)
    ensures !ctx.clientIsInternal && ctx.numStatusHeaders == 0 && !ctx.isBatvRcpt && ctx.batvRcptKey.None?
    ensures Consistent(ctx)
  {
    Context(false, 0, NO_ADDRESS, false, BatvAddress("", "", "", ""), "", None)
  }

  /**
   * `clear_message_state`: the header count, the sender and `is_batv_rcpt`
   * are reset; the connection state and the stale recipient fields stay.
   */
  function ClearMessageState(ctx: Context): (r: Context)
    ensures r.numStatusHeaders == 0 && r.envFrom == NO_ADDRESS && !r.isBatvRcpt
    ensures r.clientIsInternal == ctx.clientIsInternal
    ensures r.batvRcpt == ctx.batvRcpt && r.batvRcptString == ctx.batvRcptString && r.batvRcptKey == ctx.batvRcptKey
    ensures Consistent(r)
  {
    ctx.(numStatusHeaders := 0, envFrom := NO_ADDRESS, isBatvRcpt := false)
  }

  /** What a callback returns, and the private data it leaves attached to the connection. */
  datatype Reply = Reply(status: Status, priv: Option<Context>)

  /** The peer address `on_connect` receives. */
  datatype HostAddr = NoHostAddr | Inet(v4: Cidr.Ipv4) | Inet6(v6: Cidr.Ipv6) | OtherFamily

  /**
   * `on_connect`: attach a fresh context (`attached` says whether
   * `smfi_setpriv` succeeded); a local submission is internal, an IPv4 or
   * IPv6 peer is looked up in `internal_hosts`, any other family is not.
   */
  function OnConnect(cfg: Config.MilterConfig, attached: bool, host: HostAddr): (r: Reply)
    requires Config.ValidConfig(cfg)
    ensures !attached <==> r.priv.None?
    ensures !attached ==> r.status == MilterStatus(cfg.onInternalError)
    ensures attached ==> r.status == Continue && r.priv.value == NewContext().(clientIsInternal := r.priv.value.clientIsInternal)
    ensures attached ==> (r.priv.value.clientIsInternal <==>
      match host
      case NoHostAddr => true
      case Inet(a) => exists i | 0 <= i < |cfg.internalHosts| :: Cidr.PrefixMatches(Cidr.MakeIpv4Mapped(a), cfg.internalHosts[i])
      case Inet6(a) => exists i | 0 <= i < |cfg.internalHosts| :: Cidr.PrefixMatches(a, cfg.internalHosts[i])
      case OtherFamily => false)
  {
    if !attached then Reply(MilterStatus(cfg.onInternalError), None)
    else
      var internal := match host
        case NoHostAddr => true
        case Inet(a) => Config.IsInternalHost4(cfg, a)
        case Inet6(a) => Config.IsInternalHost(cfg, a)
        case OtherFamily => false;
      Reply(Continue, Some(NewContext().(clientIsInternal := internal)))
  }

  /**
   * `on_envfrom`: an authenticated session makes the client internal, never
   * the reverse; the sender is remembered in canonical form.
   */
  function OnEnvfrom(cfg: Config.MilterConfig, priv: Option<Context>, authenticated: bool, arg: string): (r: Reply)
    ensures priv.None? ==> r == Reply(MilterStatus(cfg.onInternalError), None)
    ensures priv.Some? ==> r.status == Continue && r.priv.Some?
    ensures priv.Some? ==> r.priv.value.clientIsInternal == (priv.value.clientIsInternal || authenticated)
    ensures priv.Some? ==> r.priv.value.envFrom == SplitAddress(CanonAddress(arg))
    ensures priv.Some? ==> r.priv.value == priv.value.(clientIsInternal := r.priv.value.clientIsInternal, envFrom := r.priv.value.envFrom)
  {
    match priv
    case None => Reply(MilterStatus(cfg.onInternalError), None)
    case Some(ctx) =>
      var internal := if !ctx.clientIsInternal && authenticated then true else ctx.clientIsInternal;
      Reply(Continue, Some(ctx.(clientIsInternal := internal, envFrom := SplitAddress(CanonAddress(arg)))))
  }

  /** The recipient argument as `on_envrcpt` reads it: canonical form, split at the `@`. */
  function RcptOf(arg: string): EmailAddress {
    SplitAddress(CanonAddress(arg))
  }

  /** A recipient that marks the message: a prvs address whose original sender has a key. */
  predicate Qualifies(cfg: Config.MilterConfig, arg: string) {
    var b := Verify.PrvsAddress(RcptOf(arg));
    b.Some? && Config.GetKey(cfg, MakeString(OrigMailfrom(b.value))).Some?
  }

  /**
   * The recipient state after `on_envrcpt` looked at one recipient. The
   * source parses straight into `batv_rcpt`, so a recipient that is not a
   * prvs address may leave its own fields there; here `batvRcpt` changes
   * only for a prvs address. Nothing reads `batv_rcpt` while
   * `is_batv_rcpt` is false, so the two agree on everything observable.
   */
  function NoteRecipient(cfg: Config.MilterConfig, ctx: Context, arg: string): (r: Context)
    requires !ctx.isBatvRcpt
    ensures r.isBatvRcpt <==> Qualifies(cfg, arg)
    ensures r.isBatvRcpt ==> r.batvRcptString == CStr(arg) && r.batvRcpt == Verify.PrvsAddress(RcptOf(arg)).value
    ensures r.isBatvRcpt ==> r.batvRcptKey == Config.GetKey(cfg, MakeString(OrigMailfrom(r.batvRcpt)))
    ensures r.clientIsInternal == ctx.clientIsInternal && r.numStatusHeaders == ctx.numStatusHeaders && r.envFrom == ctx.envFrom
    ensures Consistent(r)
  {
    match Verify.PrvsAddress(RcptOf(arg))
    case None => ctx
    case Some(b) =>
      var key := Config.GetKey(cfg, MakeString(OrigMailfrom(b)));
      if key.Some? then ctx.(batvRcpt := b, batvRcptKey := key, isBatvRcpt := true, batvRcptString := CStr(arg))
      else ctx.(batvRcpt := b, batvRcptKey := key)
  }

  /** `on_envrcpt`: only while no BATV recipient has been found, look at this one. */
  function OnEnvrcpt(cfg: Config.MilterConfig, priv: Option<Context>, arg: string): (r: Reply)
    ensures priv.None? ==> r == Reply(MilterStatus(cfg.onInternalError), None)
    ensures priv.Some? ==> r.status == Continue && r.priv.Some?
    ensures priv.Some? && priv.value.isBatvRcpt ==> r.priv == priv
    ensures priv.Some? && !priv.value.isBatvRcpt ==> r.priv == Some(NoteRecipient(cfg, priv.value, arg))
  {
    match priv
    case None => Reply(MilterStatus(cfg.onInternalError), None)
    case Some(ctx) =>
      if ctx.isBatvRcpt then Reply(Continue, priv)
      else Reply(Continue, Some(NoteRecipient(cfg, ctx, arg)))
  }

  /** `on_envrcpt` for each recipient of a message in turn. */
  function Recipients(cfg: Config.MilterConfig, ctx: Context, args: seq<string>): Context
    decreases |args|
  {
    if |args| == 0 then ctx
    else Recipients(cfg, OnEnvrcpt(cfg, Some(ctx), args[0]).priv.value, args[1..])
  }

  /** A message none of whose recipients qualifies is never marked. */
  lemma {:induction false} NoRecipientQualifies(cfg: Config.MilterConfig, ctx: Context, args: seq<string>)
    requires !ctx.isBatvRcpt
    requires forall j | 0 <= j < |args| :: !Qualifies(cfg, args[j])
    ensures !Recipients(cfg, ctx, args).isBatvRcpt
    decreases |args|
  {
    if |args| > 0 {
      assert !Qualifies(cfg, args[0]);
      NoRecipientQualifies(cfg, NoteRecipient(cfg, ctx, args[0]), args[1..]);
    }
  }

  /**
   * The first recipient that qualifies is the one that counts: after the
   * recipients `pre`, none of which qualifies, the qualifying `arg` marks the
   * message with its own text and address, and later recipients change
   * nothing.
   */
  lemma {:induction false} FirstBatvRecipientWins(cfg: Config.MilterConfig, ctx: Context, pre: seq<string>, arg: string, post: seq<string>)
    requires !ctx.isBatvRcpt && Qualifies(cfg, arg)
    requires forall j | 0 <= j < |pre| :: !Qualifies(cfg, pre[j])
    ensures var r := Recipients(cfg, ctx, pre + [arg] + post);
      && r.isBatvRcpt
      && r.batvRcptString == CStr(arg)
      && r.batvRcpt == Verify.PrvsAddress(RcptOf(arg)).value
    decreases |pre|
  {
    SplitAround(pre, arg, post);
    if |pre| == 0 {
      TakeRecipient(cfg, ctx, arg, post);
    } else {
      FirstDoesNotQualify(cfg, pre);
      SkipRecipient(cfg, ctx, pre[0], pre[1..] + [arg] + post);
      FirstBatvRecipientWins(cfg, NoteRecipient(cfg, ctx, pre[0]), pre[1..], arg, post);
    }
  }

  lemma FirstDoesNotQualify(cfg: Config.MilterConfig, args: seq<string>)
    requires |args| > 0 && forall j | 0 <= j < |args| :: !Qualifies(cfg, args[j])
    ensures !Qualifies(cfg, args[0]) && forall j | 0 <= j < |args| - 1 :: !Qualifies(cfg, args[1..][j])
  {
  }

  /** A recipient that does not qualify leaves the message unmarked. */
  lemma SkipRecipient(cfg: Config.MilterConfig, ctx: Context, arg: string, rest: seq<string>)
    requires !ctx.isBatvRcpt && !Qualifies(cfg, arg)
    ensures !NoteRecipient(cfg, ctx, arg).isBatvRcpt
    ensures Recipients(cfg, ctx, [arg] + rest) == Recipients(cfg, NoteRecipient(cfg, ctx, arg), rest)
  {
    assert ([arg] + rest)[0] == arg && ([arg] + rest)[1..] == rest;
  }

  /** A recipient that qualifies marks the message for good. */
  lemma TakeRecipient(cfg: Config.MilterConfig, ctx: Context, arg: string, rest: seq<string>)
    requires !ctx.isBatvRcpt && Qualifies(cfg, arg)
    ensures Recipients(cfg, ctx, [arg] + rest) == NoteRecipient(cfg, ctx, arg)
  {
    assert ([arg] + rest)[0] == arg && ([arg] + rest)[1..] == rest;
    MarkedStaysMarked(cfg, NoteRecipient(cfg, ctx, arg), rest);
  }

  /** Once a recipient is marked, later recipients change nothing. */
  lemma {:induction false} MarkedStaysMarked(cfg: Config.MilterConfig, ctx: Context, args: seq<string>)
    requires ctx.isBatvRcpt
    ensures Recipients(cfg, ctx, args) == ctx
    decreases |args|
  {
    if |args| > 0 {
      MarkedStaysMarked(cfg, ctx, args[1..]);
    }
  }

  /** `on_header`: count the status headers, an `unsigned int` that wraps. */
  function OnHeader(cfg: Config.MilterConfig, priv: Option<Context>, name: string): (r: Reply)
    ensures priv.None? ==> r == Reply(MilterStatus(cfg.onInternalError), None)
    ensures priv.Some? ==> r.status == Continue && r.priv.Some?
    ensures priv.Some? ==> r.priv.value == priv.value.(numStatusHeaders := r.priv.value.numStatusHeaders)
    ensures priv.Some? && IsStatusHeader(name) ==> r.priv.value.numStatusHeaders == (priv.value.numStatusHeaders + 1) % Prvs.TWO_TO_32
    ensures priv.Some? && !IsStatusHeader(name) ==> r.priv.value == priv.value
  {
    match priv
    case None => Reply(MilterStatus(cfg.onInternalError), None)
    case Some(ctx) =>
      if IsStatusHeader(name) then Reply(Continue, Some(ctx.(numStatusHeaders := (ctx.numStatusHeaders + 1) % Prvs.TWO_TO_32)))
      else Reply(Continue, priv)
  }

  /** `on_header` for each header name of a message in turn. */
  function Headers(cfg: Config.MilterConfig, ctx: Context, names: seq<string>): Context
    decreases |names|
  {
    if |names| == 0 then ctx
    else Headers(cfg, OnHeader(cfg, Some(ctx), names[0]).priv.value, names[1..])
  }

  /** The count after one header. */
  function Bump(n: Prvs.UInt, name: string): Prvs.UInt {
    if IsStatusHeader(name) then (n + 1) % Prvs.TWO_TO_32 else n
  }

  /** The count after the headers `names`. */
  function CountAfter(n: Prvs.UInt, names: seq<string>): Prvs.UInt
    decreases |names|
  {
    if |names| == 0 then n else CountAfter(Bump(n, names[0]), names[1..])
  }

  /** Headers only ever move the count. */
  lemma {:induction false} HeadersOnlyCount(cfg: Config.MilterConfig, ctx: Context, names: seq<string>)
    ensures Headers(cfg, ctx, names) == ctx.(numStatusHeaders := CountAfter(ctx.numStatusHeaders, names))
    decreases |names|
  {
    if |names| > 0 {
      var next := ctx.(numStatusHeaders := Bump(ctx.numStatusHeaders, names[0]));
      assert OnHeader(cfg, Some(ctx), names[0]).priv.value == next;
      HeadersOnlyCount(cfg, next, names[1..]);
    }
  }

  /** How many of `names` are status headers. */
  function CountStatus(names: seq<string>): (n: nat)
    ensures n <= |names|
  {
    if |names| == 0 then 0 else (if IsStatusHeader(names[0]) then 1 else 0) + CountStatus(names[1..])
  }

  /** The count goes up by the number of status headers, modulo 2^32. */
  lemma {:induction false} CountAfterIsCount(n: Prvs.UInt, names: seq<string>)
    ensures CountAfter(n, names) == (n + CountStatus(names)) % Prvs.TWO_TO_32
    decreases |names|
  {
    if |names| > 0 {
      var b := if IsStatusHeader(names[0]) then 1 else 0;
      var rest := CountStatus(names[1..]);
      CountAfterIsCount(Bump(n, names[0]), names[1..]);
      assert CountAfter(n, names) == (Bump(n, names[0]) + rest) % Prvs.TWO_TO_32;
      assert Bump(n, names[0]) == (n + b) % Prvs.TWO_TO_32;
      ModAddAssoc(n, b, rest);
      assert CountStatus(names) == b + rest;
    } else {
      ModOfSmall(n);
    }
  }

  /** After the headers, the count is the number of status headers among them (modulo 2^32), and nothing else moved. */
  lemma HeadersCountStatus(cfg: Config.MilterConfig, ctx: Context, names: seq<string>)
    ensures Headers(cfg, ctx, names) == ctx.(numStatusHeaders := (ctx.numStatusHeaders + CountStatus(names)) % Prvs.TWO_TO_32)
  {
    HeadersOnlyCount(cfg, ctx, names);
    CountAfterIsCount(ctx.numStatusHeaders, names);
  }

  lemma ModAddAssoc(a: nat, b: nat, c: nat)
    ensures ((a + b) % Prvs.TWO_TO_32 + c) % Prvs.TWO_TO_32 == (a + b + c) % Prvs.TWO_TO_32
  {
    var m := Prvs.TWO_TO_32;
    var q := (a + b) / m;
    assert a + b == q * m + (a + b) % m;
    assert a + b + c == q * m + ((a + b) % m + c);
    ModMultiple(q, (a + b) % m + c);
  }

  lemma ModOfSmall(x: nat)
    requires x < Prvs.TWO_TO_32
    ensures x % Prvs.TWO_TO_32 == x
  {
  }

  lemma ModMultiple(q: nat, x: nat)
    ensures (q * Prvs.TWO_TO_32 + x) % Prvs.TWO_TO_32 == x % Prvs.TWO_TO_32
  {
    var m := Prvs.TWO_TO_32;
    var k := x / m;
    assert x == k * m + x % m;
    assert q * m + x == (q + k) * m + x % m;
  }

  /** The libmilter calls `on_eom` makes. */
  datatype Action =
    | DeleteHeader(name: string, index: nat)
    | AddHeader(name: string, value: string)
    | DelRcpt(rcpt: string)
    | AddRcpt(rcpt: string)
    | ChangeFrom(sender: string)

  /** `smfi_chgheader(ctx, "X-Batv-Status", i, NULL)` for `i = n, n - 1, ..., 1`. */
  function DeleteStatusHeaders(n: nat): (r: seq<Action>)
    ensures |r| == n
    ensures forall i | 0 <= i < n :: r[i] == DeleteHeader(STATUS_HEADER, n - i)
  {
    if n == 0 then [] else [DeleteHeader(STATUS_HEADER, n)] + DeleteStatusHeaders(n - 1)
  }

  /** The status the milter writes: `valid` only when the tag checks out. */
  function StatusValue(cfg: Config.MilterConfig, ctx: Context, today: Prvs.Day): string
    requires Consistent(ctx) && ctx.isBatvRcpt
  {
    if ctx.batvRcpt.tagType == "prvs"
       && Verify.ValidateAddress(ctx.batvRcpt, Verify.Lifetime(cfg.common), ctx.batvRcptKey.value, today)
    then "valid" else "invalid"
  }

  /** The deletions of the verify half, when verification is on. */
  function Deletions(cfg: Config.MilterConfig, ctx: Context): (r: seq<Action>)
    ensures forall i | 0 <= i < |r| :: r[i].DeleteHeader?
  {
    if cfg.doVerify then DeleteStatusHeaders(ctx.numStatusHeaders) else []
  }

  /** The rest of the verify half: judge the BATV recipient, then put the original address in its place. */
  function RecipientActions(cfg: Config.MilterConfig, ctx: Context, today: Prvs.Day): (r: seq<Action>)
    requires Consistent(ctx)
    ensures forall i | 0 <= i < |r| :: !r[i].DeleteHeader? && !r[i].ChangeFrom?
  {
    if cfg.doVerify && ctx.isBatvRcpt then
      [AddHeader(STATUS_HEADER, StatusValue(cfg, ctx, today)),
       DelRcpt(ctx.batvRcptString),
       AddRcpt(MakeString(OrigMailfrom(ctx.batvRcpt)))]
    else []
  }

  /** `is_batv_address(env_from, delimiter)`: the sender already carries a BATV tag. */
  predicate IsBatvAddress(e: EmailAddress) {
    Parse(MakeString(e)).Some?
  }

  /** The key to sign with, when the sender is to be signed at all. */
  function SigningKey(cfg: Config.MilterConfig, ctx: Context): Option<Bytes> {
    if cfg.doSign && ctx.clientIsInternal && !IsBatvAddress(ctx.envFrom) then Config.GetKey(cfg, MakeString(ctx.envFrom))
    else None
  }

  /** The new envelope sender: the prvs address of the sender, written out. */
  function SignedSender(cfg: Config.MilterConfig, ctx: Context, key: Bytes, today: Prvs.Day): string {
    Format(Prvs.GenerateAddress(ctx.envFrom, Verify.Lifetime(cfg.common), key, today))
  }

  /** The calls of the sign half. */
  function SignActions(cfg: Config.MilterConfig, ctx: Context, today: Prvs.Day): (r: seq<Action>)
    ensures |r| <= 1 && (forall i | 0 <= i < |r| :: r[i].ChangeFrom?)
    ensures |r| == 1 <==> SigningKey(cfg, ctx).Some?
  {
    match SigningKey(cfg, ctx)
    case None => []
    case Some(key) => [ChangeFrom(SignedSender(cfg, ctx, key, today))]
  }

  /** Every call `on_eom` makes when none fails, in order. */
  function EomPlan(cfg: Config.MilterConfig, ctx: Context, today: Prvs.Day): seq<Action>
    requires Consistent(ctx)
  {
    Deletions(cfg, ctx) + RecipientActions(cfg, ctx, today) + SignActions(cfg, ctx, today)
  }

  /** Where each part of a plan `d + a + s` sits. */
  lemma PlanParts(d: seq<Action>, a: seq<Action>, s: seq<Action>)
    ensures forall i | 0 <= i < |d| :: (d + a + s)[i] == d[i]
    ensures forall i | 0 <= i < |a| :: (d + a + s)[|d| + i] == a[i]
    ensures forall i | 0 <= i < |s| :: (d + a + s)[|d| + |a| + i] == s[i]
  {
  }

  /** What `on_eom` did: its status, the calls it made (the last one failing, if any failed), the context left. */
  datatype EomReply = EomReply(status: Status, actions: seq<Action>, priv: Option<Context>)

  /**
   * `on_eom`: make the planned calls in order; the call at `failAt` (if any)
   * fails, which stops `on_eom` with the internal-error status. Every exit
   * that has a context clears its message state.
   */
  function OnEom(cfg: Config.MilterConfig, priv: Option<Context>, today: Prvs.Day, failAt: Option<nat>): (r: EomReply)
    requires priv.Some? ==> Consistent(priv.value)
    ensures priv.None? ==> r == EomReply(MilterStatus(cfg.onInternalError), [], None)
    ensures priv.Some? ==> r.priv == Some(ClearMessageState(priv.value))
    ensures priv.Some? ==> var plan := EomPlan(cfg, priv.value, today);
      && (r.status == Accept || r.status == MilterStatus(cfg.onInternalError))
      && (failAt.Some? && failAt.value < |plan| ==> r.actions == plan[..failAt.value + 1] && r.status == MilterStatus(cfg.onInternalError))
      && (!(failAt.Some? && failAt.value < |plan|) ==> r.actions == plan && r.status == Accept)
  {
    match priv
    case None => EomReply(MilterStatus(cfg.onInternalError), [], None)
    case Some(ctx) =>
      var plan := EomPlan(cfg, ctx, today);
      if failAt.Some? && failAt.value < |plan| then
        EomReply(MilterStatus(cfg.onInternalError), plan[..failAt.value + 1], Some(ClearMessageState(ctx)))
      else
        EomReply(Accept, plan, Some(ClearMessageState(ctx)))
  }

  /** `on_abort`: clear the message state, if there is a context. */
  function OnAbort(priv: Option<Context>): (r: Reply)
    ensures r.status == Continue
    ensures priv.None? ==> r.priv.None?
    ensures priv.Some? ==> r.priv == Some(ClearMessageState(priv.value))
  {
    match priv
    case None => Reply(Continue, None)
    case Some(ctx) => Reply(Continue, Some(ClearMessageState(ctx)))
  }

  /** The callbacks keep the recipient fields consistent. */
  lemma CallbacksKeepConsistent(cfg: Config.MilterConfig, ctx: Context, arg: string, authenticated: bool, today: Prvs.Day, failAt: Option<nat>)
    requires Consistent(ctx)
    ensures Consistent(OnEnvfrom(cfg, Some(ctx), authenticated, arg).priv.value)
    ensures Consistent(OnEnvrcpt(cfg, Some(ctx), arg).priv.value)
    ensures Consistent(OnHeader(cfg, Some(ctx), arg).priv.value)
    ensures Consistent(OnEom(cfg, Some(ctx), today, failAt).priv.value)
    ensures Consistent(OnAbort(Some(ctx)).priv.value)
  {
  }

  /**
   * With verification on, the first calls delete every counted status
   * header, last index first, and no later call deletes one.
   */
  lemma StatusHeadersDeletedFirst(cfg: Config.MilterConfig, ctx: Context, today: Prvs.Day)
    requires Consistent(ctx) && cfg.doVerify
    ensures var plan := EomPlan(cfg, ctx, today);
      var n := ctx.numStatusHeaders;
      && |plan| >= n
      && (forall i | 0 <= i < n :: plan[i] == DeleteHeader(STATUS_HEADER, n - i))
      && (forall i | n <= i < |plan| :: !plan[i].DeleteHeader?)
  {
    var d, a, s := Deletions(cfg, ctx), RecipientActions(cfg, ctx, today), SignActions(cfg, ctx, today);
    PlanParts(d, a, s);
    var plan := d + a + s;
    forall i | |d| <= i < |plan| ensures !plan[i].DeleteHeader? {
      if i < |d| + |a| {
        assert plan[|d| + (i - |d|)] == a[i - |d|];
      } else {
        assert plan[|d| + |a| + (i - |d| - |a|)] == s[i - |d| - |a|];
      }
    }
  }

  /**
   * The status written for a BATV recipient is `valid` exactly when the tag
   * value validates under the recipient's key, and the tagged recipient is
   * replaced by the original address right after.
   */
  lemma StatusAndRecipientRestored(cfg: Config.MilterConfig, ctx: Context, today: Prvs.Day)
    requires Consistent(ctx) && cfg.doVerify && ctx.isBatvRcpt
    ensures var plan := EomPlan(cfg, ctx, today);
      var n := ctx.numStatusHeaders;
      && |plan| >= n + 3
      && plan[n].AddHeader? && plan[n].name == STATUS_HEADER
      && (plan[n].value == "valid" <==> Verify.ValidateAddress(ctx.batvRcpt, Verify.Lifetime(cfg.common), ctx.batvRcptKey.value, today))
      && (plan[n].value == "valid" || plan[n].value == "invalid")
      && plan[n + 1] == DelRcpt(ctx.batvRcptString)
      && plan[n + 2] == AddRcpt(MakeString(OrigMailfrom(ctx.batvRcpt)))
  {
    var d, a, s := Deletions(cfg, ctx), RecipientActions(cfg, ctx, today), SignActions(cfg, ctx, today);
    PlanParts(d, a, s);
    var n := ctx.numStatusHeaders;
    assert d + a + s == EomPlan(cfg, ctx, today);
    assert (d + a + s)[n] == a[0] && (d + a + s)[n + 1] == a[1] && (d + a + s)[n + 2] == a[2];
  }

  /**
   * The sender is rewritten exactly when signing is on, the client is
   * internal, the sender is not a BATV address yet and has a key; the
   * rewrite is the last call.
   */
  lemma SignOnlyWhen(cfg: Config.MilterConfig, ctx: Context, today: Prvs.Day)
    requires Consistent(ctx)
    ensures var plan := EomPlan(cfg, ctx, today);
      && ((exists i | 0 <= i < |plan| :: plan[i].ChangeFrom?)
          <==> cfg.doSign && ctx.clientIsInternal && !IsBatvAddress(ctx.envFrom) && Config.GetKey(cfg, MakeString(ctx.envFrom)).Some?)
      && (forall i | 0 <= i < |plan| && plan[i].ChangeFrom? :: i == |plan| - 1)
  {
    var d, a, s := Deletions(cfg, ctx), RecipientActions(cfg, ctx, today), SignActions(cfg, ctx, today);
    PlanParts(d, a, s);
    var plan := d + a + s;
    forall i | 0 <= i < |d| + |a| ensures !plan[i].ChangeFrom? {
      if i >= |d| {
        assert plan[|d| + (i - |d|)] == a[i - |d|];
      }
    }
    if |s| == 1 {
      assert plan[|d| + |a| + 0] == s[0];
    }
  }

  /**
   * Sign, then verify: the sender `on_eom` writes comes back, as a bounce
   * recipient, as a valid BATV address of the same sender on every day of its
   * lifetime.
   */
  lemma SignedSenderVerifies(cfg: Config.MilterConfig, ctx: Context, today: Prvs.Day, k: nat)
    requires SigningKey(cfg, ctx).Some?
    requires forall i | 0 <= i < |ctx.envFrom.localPart| :: IsLocChar(ctx.envFrom.localPart[i])
    requires NoNul(ctx.envFrom.domain) && ctx.envFrom.domain != ""
    requires 1 <= cfg.common.addressLifetime <= 999 && k <= cfg.common.addressLifetime
    ensures var sender := SignedSender(cfg, ctx, SigningKey(cfg, ctx).value, today);
      Verify.Verify(SplitAddress(sender), cfg.common, Prvs.After(today, k))
        == Verify.Outcome(Verify.VerifySuccess, MakeString(ctx.envFrom))
  {
    Verify.SignedAddressVerifies(ctx.envFrom, cfg.common, SigningKey(cfg, ctx).value, today, k);
  }
}
