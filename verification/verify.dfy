/**
 * verify.cpp: the classification of one envelope recipient into "no BATV
 * user", "missing signature", "bad signature" and "valid", shared by the
 * filter and the validator.
 */
module Verify {
  import opened Wrappers
  import opened Util
  import opened Address
  import Keys
  import Prvs
  import Config

  /** `Verify_result` of verify.hpp. */
  datatype VerifyResult = VerifyNone | VerifySuccess | VerifyMissing | VerifyBadSignature | VerifyMultipleRcpt | VerifyError

  /** The answer of `verify` together with what it stores through `true_rcpt`. */
  datatype Outcome = Outcome(result: VerifyResult, trueRcpt: string)

  /** `address_lifetime` read as the `unsigned int` it is. */
  function Lifetime(cfg: Config.CommonConfig): Prvs.UInt {
    cfg.addressLifetime % Prvs.TWO_TO_32
  }

  /** A lifetime `lifetime` accepts reads the same as an `unsigned int`. */
  lemma LifetimeNoWrap(cfg: Config.CommonConfig)
    requires 0 <= cfg.addressLifetime < Prvs.TWO_TO_32
    ensures Lifetime(cfg) == cfg.addressLifetime
  {
  }

  /** The recipient as a BATV address with tag type `prvs`, if it is one. */
  function PrvsAddress(rcpt: EmailAddress): Option<BatvAddress> {
    var p := Parse(MakeString(rcpt));
    if p.Some? && p.value.tagType == "prvs" then p else None
  }

  /** The overload `prvs_validate(batv_rcpt, lifetime, key)`: the tag value over the original sender's text. */
  function ValidateAddress(b: BatvAddress, lifetime: Prvs.UInt, key: Bytes, today: Prvs.Day): bool {
    Prvs.Validate(b.tagVal, MakeString(OrigMailfrom(b)), lifetime, key, today)
  }

  /**
   * `verify(env_rcpt, &true_rcpt, config)`: the true recipient is the
   * original sender of a prvs address, or the recipient itself; without a
   * key for it the message is none of BATV's business, without a tag it is
   * missing its signature, otherwise the tag decides.
   */
  function Verify(envRcpt: EmailAddress, cfg: Config.CommonConfig, today: Prvs.Day): (o: Outcome)
    ensures o.result != VerifyMultipleRcpt && o.result != VerifyError
    ensures o.trueRcpt == (if PrvsAddress(envRcpt).Some? then MakeString(OrigMailfrom(PrvsAddress(envRcpt).value)) else MakeString(envRcpt))
    ensures o.result == VerifyNone <==> Keys.GetKey(cfg.keys, o.trueRcpt).None?
    ensures o.result == VerifyMissing <==> Keys.GetKey(cfg.keys, o.trueRcpt).Some? && PrvsAddress(envRcpt).None?
    ensures o.result == VerifySuccess || o.result == VerifyBadSignature ==>
      PrvsAddress(envRcpt).Some? && Keys.GetKey(cfg.keys, o.trueRcpt).Some?
  {
    var batv := PrvsAddress(envRcpt);
    var trueRcpt := if batv.Some? then MakeString(OrigMailfrom(batv.value)) else MakeString(envRcpt);
    match Keys.GetKey(cfg.keys, trueRcpt)
    case None => Outcome(VerifyNone, trueRcpt)
    case Some(key) =>
      if batv.None? then Outcome(VerifyMissing, trueRcpt)
      else if !ValidateAddress(batv.value, Lifetime(cfg), key, today) then Outcome(VerifyBadSignature, trueRcpt)
      else Outcome(VerifySuccess, trueRcpt)
  }

  /**
   * A valid recipient carries a prvs tag value with key number 0, an expiry
   * day at most `address_lifetime` days ahead and the HMAC of the true
   * recipient under that recipient's key.
   */
  lemma VerifySuccessMeans(envRcpt: EmailAddress, cfg: Config.CommonConfig, today: Prvs.Day)
    requires Verify(envRcpt, cfg, today).result == VerifySuccess
    ensures var o := Verify(envRcpt, cfg, today);
      var tag := PrvsAddress(envRcpt).value.tagVal;
      var key := Keys.GetKey(cfg.keys, o.trueRcpt).value;
      && Prvs.DecodeTag(tag).Some? && Prvs.DecodeTag(tag).value.keyNum == 0
      && Prvs.DaysLeft(Prvs.DecodeTag(tag).value.day, today) <= Lifetime(cfg)
      && Prvs.DecodeTag(tag).value.claimed == Prvs.ExpectedMac(tag, o.trueRcpt, key)
  {
  }

  /** A recipient that is not a prvs address is judged on its own text: no key, or a missing signature. */
  lemma UntaggedRecipient(envRcpt: EmailAddress, cfg: Config.CommonConfig, today: Prvs.Day)
    requires PrvsAddress(envRcpt).None?
    ensures Verify(envRcpt, cfg, today)
         == Outcome(if Keys.GetKey(cfg.keys, MakeString(envRcpt)).Some? then VerifyMissing else VerifyNone, MakeString(envRcpt))
  {
  }

  /** A keyed prvs recipient is either valid or badly signed, never "missing". */
  lemma TaggedKeyedRecipient(envRcpt: EmailAddress, cfg: Config.CommonConfig, today: Prvs.Day)
    requires PrvsAddress(envRcpt).Some?
    requires Keys.GetKey(cfg.keys, MakeString(OrigMailfrom(PrvsAddress(envRcpt).value))).Some?
    ensures Verify(envRcpt, cfg, today).result in {VerifySuccess, VerifyBadSignature}
    ensures Verify(envRcpt, cfg, today).result == VerifySuccess
        <==> ValidateAddress(PrvsAddress(envRcpt).value, Lifetime(cfg),
                             Keys.GetKey(cfg.keys, MakeString(OrigMailfrom(PrvsAddress(envRcpt).value))).value, today)
  {
  }

  /** The address the signer writes is read back as the same BATV address. */
  lemma GeneratedAddressParses(from: EmailAddress, lifetime: Prvs.UInt, key: Bytes, today: Prvs.Day)
    requires forall i | 0 <= i < |from.localPart| :: IsLocChar(from.localPart[i])
    requires NoNul(from.domain) && from.domain != ""
    ensures var b := Prvs.GenerateAddress(from, lifetime, key, today);
      && SplitAddress(Format(b)) == EmailAddress(TaggedLocal(b), from.domain)
      && PrvsAddress(SplitAddress(Format(b))) == Some(b)
  {
    var b := Prvs.GenerateAddress(from, lifetime, key, today);
    PrvsIsTagType();
    TaggedAddressParses(b);
  }

  lemma PrvsIsTagType()
    ensures AllTagChars("prvs")
  {
    assert IsTagChar('p') && IsTagChar('r') && IsTagChar('v') && IsTagChar('s');
  }

  /** Any well-formed prvs address with a domain, sent to as a recipient, is recognised as itself. */
  lemma TaggedAddressParses(b: BatvAddress)
    requires WellFormed(b) && b.domain != "" && b.tagType == "prvs"
    ensures SplitAddress(Format(b)) == EmailAddress(TaggedLocal(b), b.domain)
    ensures PrvsAddress(SplitAddress(Format(b))) == Some(b)
  {
    SplitFormat(b);
    ParseFormat(b);
    NoNulFormat(b);
  }

  /**
   * Sign, then verify: a sender address rewritten with the sender's own key
   * is classified as valid on any day of its lifetime, with the original
   * sender as true recipient.
   */
  lemma SignedAddressVerifies(from: EmailAddress, cfg: Config.CommonConfig, key: Bytes, today: Prvs.Day, k: nat)
    requires forall i | 0 <= i < |from.localPart| :: IsLocChar(from.localPart[i])
    requires NoNul(from.domain) && from.domain != ""
    requires 1 <= cfg.addressLifetime <= 999 && k <= cfg.addressLifetime
    requires Keys.GetKey(cfg.keys, MakeString(from)) == Some(key)
    ensures var b := Prvs.GenerateAddress(from, Lifetime(cfg), key, today);
      Verify(SplitAddress(Format(b)), cfg, Prvs.After(today, k)) == Outcome(VerifySuccess, MakeString(from))
  {
    var b := Prvs.GenerateAddress(from, Lifetime(cfg), key, today);
    GeneratedAddressParses(from, Lifetime(cfg), key, today);
    LifetimeNoWrap(cfg);
    Prvs.ValidateAcceptsWithinLifetime(MakeString(from), Lifetime(cfg), key, today, k);
    assert ValidateAddress(b, Lifetime(cfg), key, Prvs.After(today, k));
  }
}
