/**
 * batv-validate.cpp: the validator. As a filter it restores the first
 * valid BATV recipient header and adds `X-Batv-Status`; as a check it
 * verifies each envelope recipient in turn and answers with an exit status
 * that reflects the first valid recipient, or else the last recipient that
 * BATV had an opinion about.
 */
module BatvValidate {
  import opened Wrappers
  import opened Address
  import Config
  import Prvs
  import opened Verify
  import opened MessageHeaders

  /** `Validate_config`: the common settings with `+` as delimiter, and the recipient header. */
  datatype ValidateConfig = ValidateConfig(common: Config.CommonConfig, rcptHeader: string)

  /** The constructor's defaults: a week, `+`, `Delivered-To`, no keys. */
  const DEFAULT_CONFIG := ValidateConfig(Config.CommonConfig(map[], 7, '+'), "Delivered-To")

  /**
   * The first line of the message when it is an mbox `From ` line, and the
   * lines after it, which hold the headers.
   */
  function FromLine(lines: seq<string>): (r: (seq<string>, seq<string>))
    ensures r.0 + r.1 == lines
    ensures r.0 == (if |lines| > 0 && IsFromLine(lines[0]) then [lines[0]] else [])
  {
    if |lines| > 0 && IsFromLine(lines[0]) then
      assert [lines[0]] + lines[1..] == lines;
      ([lines[0]], lines[1..])
    else ([], lines)
  }

  /**
   * The header loop of `parse_mail` and `filter`: a leading `From ` line is
   * set aside, then headers are read until the blank line or the end of the
   * input.
   */
  function ReadMail(lines: seq<string>): Result<(seq<string>, seq<Header>, seq<string>)> {
    var (head, input) := FromLine(lines);
    var (hs, rest) :- ReadHeaders(input, false);
    Success((head, hs, rest))
  }

  /** The envelope recipient a recipient header names: `after_ws`, `canon_address`, `Email_address::parse`. */
  function RcptOf(h: Header): EmailAddress {
    SplitAddress(CanonAddress(AfterWs(h.value)))
  }

  /** The recipients of the headers that name the envelope recipient, in order. */
  function Recipients(cfg: ValidateConfig, hs: seq<Header>): (r: seq<EmailAddress>)
    ensures |r| <= |hs|
  {
    if |hs| == 0 then []
    else (if NamesRecipient(hs[0].name, cfg.rcptHeader) then [RcptOf(hs[0])] else []) + Recipients(cfg, hs[1..])
  }

  /** There are no recipients exactly when no header names the recipient header. */
  lemma {:induction false} RecipientsNone(cfg: ValidateConfig, hs: seq<Header>)
    ensures Recipients(cfg, hs) == [] <==> forall j | 0 <= j < |hs| :: !NamesRecipient(hs[j].name, cfg.rcptHeader)
    decreases |hs|
  {
    if |hs| > 0 {
      RecipientsNone(cfg, hs[1..]);
      assert forall j | 1 <= j < |hs| :: hs[j] == hs[1..][j - 1];
    }
  }

  /** One header gives its recipient exactly when it names the recipient header. */
  lemma RecipientsOne(cfg: ValidateConfig, h: Header)
    ensures Recipients(cfg, [h]) == if NamesRecipient(h.name, cfg.rcptHeader) then [RcptOf(h)] else []
  {
    assert [h][1..] == [];
  }

  /** A non-empty run of headers: the first one's recipient, if any, then the rest's. */
  lemma RecipientsStep(cfg: ValidateConfig, hs: seq<Header>)
    requires |hs| > 0
    ensures Recipients(cfg, hs) == Recipients(cfg, [hs[0]]) + Recipients(cfg, hs[1..])
  {
    assert [hs[0]][1..] == [];
  }

  /**
   * The headers are read one after another: the recipients of two runs of
   * headers are those of the first followed by those of the second, so the
   * order of the input is kept.
   */
  lemma {:induction false} RecipientsAppend(cfg: ValidateConfig, a: seq<Header>, b: seq<Header>)
    ensures Recipients(cfg, a + b) == Recipients(cfg, a) + Recipients(cfg, b)
    decreases |a|
  {
    if |a| == 0 {
      assert a + b == b;
      assert Recipients(cfg, a) == [];
      assert [] + Recipients(cfg, b) == Recipients(cfg, b);
    } else {
      var ab := a + b;
      assert ab[0] == a[0];
      assert ab[1..] == a[1..] + b;
      var x, y, z := Recipients(cfg, [a[0]]), Recipients(cfg, a[1..]), Recipients(cfg, b);
      calc {
        Recipients(cfg, ab);
        { RecipientsStep(cfg, ab); }
        x + Recipients(cfg, a[1..] + b);
        { RecipientsAppend(cfg, a[1..], b); }
        x + (y + z);
        (x + y) + z;
        { RecipientsStep(cfg, a); }
        Recipients(cfg, a) + z;
      }
    }
  }

  /**
   * `parse_mail(config, in)`: every recipient header's address, or the input
   * error of a malformed header.
   */
  function ParseMail(cfg: ValidateConfig, lines: seq<string>): (r: Result<seq<EmailAddress>>)
    ensures r.Success? <==> ReadMail(lines).Success?
    ensures r.Success? ==> r.value == Recipients(cfg, ReadMail(lines).value.1)
  {
    var (_, hs, _) :- ReadMail(lines);
    Success(Recipients(cfg, hs))
  }

  /** The lines written for a valid recipient header: restored, verdict, and the BATV address kept. */
  function ValidLines(h: Header, trueRcpt: string): seq<string> {
    [h.name + ": " + trueRcpt, "X-Batv-Status: valid", "X-Batv-Delivered-To:" + h.value]
  }

  /**
   * The header loop of `filter`, over the headers read: status headers are
   * dropped; while no recipient has verified, each recipient header is
   * verified, a verdict other than "none" becomes the running result, and a
   * valid one is restored; everything else is copied through. `isRcpt`
   * says which headers name the recipient and `verify` gives their verdict.
   */
  function FilterLoop(hs: seq<Header>, result: VerifyResult, isRcpt: Header -> bool, verify: Header -> Outcome): (r: (seq<string>, VerifyResult))
    ensures result == VerifySuccess ==> r.1 == VerifySuccess
  {
    if |hs| == 0 then ([], result)
    else
      var h := hs[0];
      if DropStatus(h) then FilterLoop(hs[1..], result, isRcpt, verify)
      else if result != VerifySuccess && isRcpt(h) then
        var o := verify(h);
        var result' := if o.result != VerifyNone then o.result else result;
        var out := if o.result == VerifySuccess then ValidLines(h, o.trueRcpt) else [HeaderText(h)];
        var (more, final) := FilterLoop(hs[1..], result', isRcpt, verify);
        (out + more, final)
      else
        var (more, final) := FilterLoop(hs[1..], result, isRcpt, verify);
        ([HeaderText(h)] + more, final)
  }

  /** A recipient header that verifies: the one `filter` restores. */
  function Valid(isRcpt: Header -> bool, verify: Header -> Outcome): Header -> bool {
    (h: Header) => isRcpt(h) && verify(h).result == VerifySuccess
  }

  /** What `filter` writes for the valid recipient header. */
  function Restore(verify: Header -> Outcome): Header -> seq<string> {
    (h: Header) => ValidLines(h, verify(h).trueRcpt)
  }

  /**
   * The lines of `filter`'s header loop are those of the shared rewrite:
   * status headers dropped, the first valid recipient header restored, all
   * others copied through unchanged, whatever the verdicts before it.
   */
  lemma {:induction false} FilterLoopOutput(hs: seq<Header>, result: VerifyResult, isRcpt: Header -> bool, verify: Header -> Outcome)
    ensures FilterLoop(hs, result, isRcpt, verify).0
         == RewriteFirst(hs, result == VerifySuccess, DropStatus, Valid(isRcpt, verify), Restore(verify))
    decreases |hs|
  {
    if |hs| > 0 {
      var h := hs[0];
      if !DropStatus(h) && result != VerifySuccess && isRcpt(h) {
        var o := verify(h);
        var result' := if o.result != VerifyNone then o.result else result;
        FilterLoopOutput(hs[1..], result', isRcpt, verify);
        assert Valid(isRcpt, verify)(h) == (o.result == VerifySuccess);
      } else {
        FilterLoopOutput(hs[1..], result, isRcpt, verify);
      }
    }
  }

  /** The verdicts on the recipient headers, in order, status headers left aside. */
  function Verdicts(hs: seq<Header>, isRcpt: Header -> bool, verify: Header -> Outcome): (vs: seq<VerifyResult>)
    ensures |vs| <= |hs|
  {
    if |hs| == 0 then []
    else if !DropStatus(hs[0]) && isRcpt(hs[0]) then [verify(hs[0]).result] + Verdicts(hs[1..], isRcpt, verify)
    else Verdicts(hs[1..], isRcpt, verify)
  }

  /** The last verdict other than "none", or "none". */
  function LastOpinion(vs: seq<VerifyResult>): (v: VerifyResult)
    ensures v == VerifyNone <==> forall i | 0 <= i < |vs| :: vs[i] == VerifyNone
    ensures v != VerifyNone ==> v in vs
  {
    if |vs| == 0 then VerifyNone
    else if vs[|vs| - 1] != VerifyNone then vs[|vs| - 1]
    else
      var v := LastOpinion(vs[..|vs| - 1]);
      assert forall i | 0 <= i < |vs| - 1 :: vs[..|vs| - 1][i] == vs[i];
      v
  }

  /** A verdict at the front matters only when nothing after it has an opinion. */
  lemma {:induction false} LastOpinionCons(v: VerifyResult, vs: seq<VerifyResult>)
    ensures LastOpinion([v] + vs) == if LastOpinion(vs) != VerifyNone then LastOpinion(vs) else v
    decreases |vs|
  {
    var s := [v] + vs;
    if |vs| > 0 && vs[|vs| - 1] == VerifyNone {
      assert s[..|s| - 1] == [v] + vs[..|vs| - 1];
      LastOpinionCons(v, vs[..|vs| - 1]);
    } else if |vs| == 0 {
      assert s[..0] == [];
    }
  }

  /**
   * The result a sequence of verdicts settles on, starting from `start`:
   * valid if any recipient is valid, else the last verdict other than
   * "none", else `start`.
   */
  function Settle(vs: seq<VerifyResult>, start: VerifyResult): VerifyResult {
    if VerifySuccess in vs then VerifySuccess
    else if LastOpinion(vs) != VerifyNone then LastOpinion(vs)
    else start
  }

  /**
   * The result `filter` ends with: a valid recipient anywhere wins (later
   * headers are not even verified), otherwise the last verdict that was not
   * "none"; a "none" verdict never overwrites an earlier one.
   */
  lemma {:induction false} FilterLoopResult(hs: seq<Header>, result: VerifyResult, isRcpt: Header -> bool, verify: Header -> Outcome)
    requires result != VerifySuccess
    ensures FilterLoop(hs, result, isRcpt, verify).1 == Settle(Verdicts(hs, isRcpt, verify), result)
    decreases |hs|
  {
    if |hs| > 0 {
      var h := hs[0];
      var rest := Verdicts(hs[1..], isRcpt, verify);
      if !DropStatus(h) && isRcpt(h) {
        var v := verify(h).result;
        var result' := if v != VerifyNone then v else result;
        assert Verdicts(hs, isRcpt, verify) == [v] + rest;
        LastOpinionCons(v, rest);
        if v != VerifySuccess {
          FilterLoopResult(hs[1..], result', isRcpt, verify);
          assert VerifySuccess in [v] + rest <==> VerifySuccess in rest;
        } else {
          assert VerifySuccess in [v] + rest;
        }
      } else {
        FilterLoopResult(hs[1..], result, isRcpt, verify);
      }
    }
  }

  /** The trailer `filter` adds after the headers for a recipient that is missing or has a bad signature. */
  function Trailer(result: VerifyResult): (out: seq<string>)
    ensures |out| <= 1
    ensures |out| == 1 <==> result == VerifyMissing || result == VerifyBadSignature
  {
    if result == VerifyMissing then ["X-Batv-Status: invalid, missing"]
    else if result == VerifyBadSignature then ["X-Batv-Status: invalid, bad-signature"]
    else []
  }

  /** The recipient test and the verdict `filter` applies to one header. */
  function IsRcpt(cfg: ValidateConfig): Header -> bool {
    (h: Header) => NamesRecipient(h.name, cfg.rcptHeader)
  }

  function VerifyHeader(cfg: ValidateConfig, today: Prvs.Day): Header -> Outcome {
    (h: Header) => Verify.Verify(RcptOf(h), cfg.common, today)
  }

  /**
   * `filter(config, in, out)`: the `From ` line, the processed headers, the
   * trailer for the running result, then the rest of the input unchanged;
   * or the input error of a malformed header.
   */
  function Filter(cfg: ValidateConfig, lines: seq<string>, today: Prvs.Day): (r: Result<seq<string>>)
    ensures r.Success? <==> ReadMail(lines).Success?
    ensures r.Success? ==>
      var (head, hs, rest) := ReadMail(lines).value;
      && head <= r.value
      && |rest| <= |r.value| && r.value[|r.value| - |rest|..] == rest
  {
    var (head, hs, rest) :- ReadMail(lines);
    var (out, result) := FilterLoop(hs, VerifyNone, IsRcpt(cfg), VerifyHeader(cfg, today));
    var all := head + out + Trailer(result) + rest;
    assert all[|all| - |rest|..] == rest;
    Success(all)
  }

  /**
   * What `filter` writes, end to end: the first valid recipient header is
   * restored and all others copied, status headers dropped; and the trailer
   * follows the result the verdicts settle on.
   */
  lemma FilterWrites(cfg: ValidateConfig, lines: seq<string>, today: Prvs.Day)
    requires ReadMail(lines).Success?
    ensures var (head, hs, rest) := ReadMail(lines).value;
      var isRcpt, verify := IsRcpt(cfg), VerifyHeader(cfg, today);
      Filter(cfg, lines, today)
        == Success(head
                   + RewriteFirst(hs, false, DropStatus, Valid(isRcpt, verify), Restore(verify))
                   + Trailer(Settle(Verdicts(hs, isRcpt, verify), VerifyNone))
                   + rest)
  {
    var (head, hs, rest) := ReadMail(lines).value;
    FilterLoopOutput(hs, VerifyNone, IsRcpt(cfg), VerifyHeader(cfg, today));
    FilterLoopResult(hs, VerifyNone, IsRcpt(cfg), VerifyHeader(cfg, today));
  }

  /** The exit status for a result other than valid: 11 for a missing signature, 10 for a bad one, else 0. */
  function FailureCode(v: VerifyResult): int {
    if v == VerifyMissing then 11 else if v == VerifyBadSignature then 10 else 0
  }

  /** What `verify` says about each recipient. */
  function Outcomes(cfg: Config.CommonConfig, rcpts: seq<EmailAddress>, today: Prvs.Day): (os: seq<Outcome>) {
    seq(|rcpts|, i requires 0 <= i < |rcpts| => Verify.Verify(rcpts[i], cfg, today))
  }

  /** The results alone. */
  function Results(os: seq<Outcome>): (vs: seq<VerifyResult>)
    ensures |vs| == |os| && forall i | 0 <= i < |os| :: vs[i] == os[i].result
  {
    if |os| == 0 then [] else [os[0].result] + Results(os[1..])
  }

  /**
   * The recipient loop of `main`, over the verdicts on the recipients in
   * turn: the first valid recipient's true address is printed and the
   * status is 0; otherwise nothing is printed and the status is that of the
   * last recipient with a key (11 missing, 10 bad), or 0 when no recipient
   * had one.
   */
  method ExitStatus(os: seq<Outcome>) returns (status: int, printed: Option<string>)
    requires forall i | 0 <= i < |os| :: os[i].result != VerifyMultipleRcpt && os[i].result != VerifyError
    ensures printed.Some? <==> VerifySuccess in Results(os)
    ensures printed.Some? ==> status == 0 && exists i | 0 <= i < |os| ::
      os[i].result == VerifySuccess && VerifySuccess !in Results(os)[..i] && printed.value == os[i].trueRcpt
    ensures printed.None? ==> status == FailureCode(LastOpinion(Results(os)))
  {
    status := 0;
    printed := None;
    ghost var vs := Results(os);
    var i := 0;
    while i < |os|
      invariant 0 <= i <= |os|
      invariant VerifySuccess !in vs[..i]
      invariant status == FailureCode(LastOpinion(vs[..i]))
    {
      LastOpinionSnoc(vs, i);
      var result := os[i].result;
      if result == VerifyNone {
      } else if result == VerifyMissing {
        status := 11;
      } else if result == VerifyBadSignature {
        status := 10;
      } else if result == VerifySuccess {
        printed := Some(os[i].trueRcpt);
        status := 0;
        assert vs[i] == VerifySuccess && VerifySuccess !in vs[..i];
        return;
      }
      i := i + 1;
    }
    assert vs[..i] == vs;
  }

  /** One more verdict decides the last opinion when it has one. */
  lemma LastOpinionSnoc(vs: seq<VerifyResult>, i: nat)
    requires i < |vs|
    ensures LastOpinion(vs[..i + 1]) == if vs[i] != VerifyNone then vs[i] else LastOpinion(vs[..i])
    ensures VerifySuccess !in vs[..i] && vs[i] != VerifySuccess ==> VerifySuccess !in vs[..i + 1]
  {
    assert vs[..i + 1][..i] == vs[..i];
    assert vs[..i + 1] == vs[..i] + [vs[i]];
  }

  /** How the validator is given its recipients: a message on the input, or an address argument. */
  datatype Input = Mail(lines: seq<string>) | Argument(address: string)

  /**
   * `main`'s checking mode: the recipients come from the message (an input
   * error exits 1, no recipient header exits 13) or from the argument;
   * then the recipient loop decides.
   */
  method Check(cfg: ValidateConfig, input: Input, today: Prvs.Day) returns (status: int, printed: Option<string>)
    ensures input.Mail? && ParseMail(cfg, input.lines).Failure? ==> status == 1 && printed.None?
    ensures input.Mail? && ParseMail(cfg, input.lines) == Success([]) ==> status == 13 && printed.None?
    ensures printed.Some? ==> status == 0
    ensures input.Mail? && ParseMail(cfg, input.lines).Success? && ParseMail(cfg, input.lines).value != [] ==>
      var os := Outcomes(cfg.common, ParseMail(cfg, input.lines).value, today);
      && (printed.Some? <==> VerifySuccess in Results(os))
      && (printed.Some? ==> exists i | 0 <= i < |os| ::
            os[i].result == VerifySuccess && VerifySuccess !in Results(os)[..i] && printed.value == os[i].trueRcpt)
      && (printed.None? ==> status == FailureCode(LastOpinion(Results(os))))
    ensures input.Argument? ==>
      var o := Verify.Verify(SplitAddress(input.address), cfg.common, today);
      && (printed.Some? <==> o.result == VerifySuccess)
      && (printed.Some? ==> printed.value == o.trueRcpt)
      && status == FailureCode(o.result)
  {
    var rcpts: seq<EmailAddress>;
    if input.Mail? {
      var parsed := ParseMail(cfg, input.lines);
      if parsed.Failure? {
        return 1, None;
      }
      rcpts := parsed.value;
      if |rcpts| == 0 {
        return 13, None;
      }
    } else {
      rcpts := [SplitAddress(input.address)];
    }
    var os := Outcomes(cfg.common, rcpts, today);
    OutcomesInDomain(cfg.common, rcpts, today);
    status, printed := ExitStatus(os);
    if input.Argument? {
      OneOutcome(cfg.common, rcpts[0], today);
    }
  }

  /** `verify` never answers "multiple recipients" or "error". */
  lemma OutcomesInDomain(cfg: Config.CommonConfig, rcpts: seq<EmailAddress>, today: Prvs.Day)
    ensures var os := Outcomes(cfg, rcpts, today);
      forall i | 0 <= i < |os| :: os[i].result != VerifyMultipleRcpt && os[i].result != VerifyError
  {
  }

  /** A single recipient: valid prints, otherwise its own failure code. */
  lemma OneOutcome(cfg: Config.CommonConfig, rcpt: EmailAddress, today: Prvs.Day)
    ensures var os := Outcomes(cfg, [rcpt], today);
      var o := Verify.Verify(rcpt, cfg, today);
      && |os| == 1 && os[0] == o
      && (VerifySuccess in Results(os) <==> o.result == VerifySuccess)
      && LastOpinion(Results(os)) == (if o.result != VerifyNone then o.result else VerifyNone)
  {
    var os := Outcomes(cfg, [rcpt], today);
    var vs := Results(os);
    assert vs == [os[0].result] && vs[..0] == [];
  }
}
