/**
 * batv-filter.cpp: the delivery-side filter that reads a message, restores
 * the original envelope recipient of the first BATV recipient header whose
 * sender has a key, records the signature's verdict in `X-Batv-Status`, and
 * removes any `X-Batv-Status` header the message arrived with.
 */
module BatvFilter {
  import opened Wrappers
  import opened Util
  import opened Ascii
  import opened Address
  import Keys
  import Prvs
  import Verify
  import opened MessageHeaders

  /** `Filter_config`. */
  datatype FilterConfig = FilterConfig(
    keys: Keys.KeyMap,
    addressLifetime: Prvs.UInt,
    subAddressDelimiter: char,
    rcptHeader: string,
    isMbox: bool)

  /** The constructor's defaults: a week, `+`, `Delivered-To`, mbox input, no keys. */
  const DEFAULT_CONFIG := FilterConfig(map[], 7, '+', "Delivered-To", true)

  /**
   * The recipient header's address (`after_ws`, `canon_address`,
   * `Email_address::parse`) as a prvs address whose original sender has a
   * key, with that key.
   */
  function KeyedRecipient(cfg: FilterConfig, value: string): (r: Option<(BatvAddress, Bytes)>)
    ensures r.Some? ==> r.value.0.tagType == "prvs"
    ensures r.Some? ==> Keys.GetKey(cfg.keys, MakeString(OrigMailfrom(r.value.0))) == Some(r.value.1)
    ensures r.None? <==>
      var b := Verify.PrvsAddress(SplitAddress(CanonAddress(AfterWs(value))));
      b.None? || Keys.GetKey(cfg.keys, MakeString(OrigMailfrom(b.value))).None?
  {
    match Verify.PrvsAddress(SplitAddress(CanonAddress(AfterWs(value))))
    case None => None
    case Some(b) =>
      match Keys.GetKey(cfg.keys, MakeString(OrigMailfrom(b)))
      case None => None
      case Some(key) => Some((b, key))
  }

  /** A header `filter` rewrites, unless it has rewritten one already: the recipient header naming a keyed BATV address. */
  predicate Qualifies(cfg: FilterConfig, h: Header) {
    NamesRecipient(h.name, cfg.rcptHeader) && KeyedRecipient(cfg, h.value).Some?
  }

  /** The verdict `filter` writes: `X-Batv-Status: valid` or `X-Batv-Status: invalid`. */
  function StatusLine(valid: bool): string {
    if valid then "X-Batv-Status: valid" else "X-Batv-Status: invalid"
  }

  /**
   * The three lines written in place of a BATV recipient header whose sender
   * has a key: the header restored to the original sender, the BATV address
   * kept in `X-Batv-Delivered-To`, and the verdict.
   */
  function Restored(h: Header, b: BatvAddress, key: Bytes, lifetime: Prvs.UInt, today: Prvs.Day): seq<string> {
    [h.name + ": " + MakeString(OrigMailfrom(b)),
     "X-Batv-Delivered-To:" + h.value,
     StatusLine(Verify.ValidateAddress(b, lifetime, key, today))]
  }

  /** What a qualifying header becomes. */
  function Rewritten(cfg: FilterConfig, h: Header, today: Prvs.Day): seq<string> {
    match KeyedRecipient(cfg, h.value)
    case Some((b, key)) => Restored(h, b, key, cfg.addressLifetime, today)
    case None => [HeaderText(h)]
  }

  /** The header loop of `filter` over the headers read. */
  function RewriteHeaders(cfg: FilterConfig, hs: seq<Header>, today: Prvs.Day): seq<string> {
    RewriteFirst(hs, false, DropStatus, h => Qualifies(cfg, h), h => Rewritten(cfg, h, today))
  }

  /** The input error for a message without its `From ` line. */
  const NOT_MBOX := "Message does not start with mbox From line.  Use -r option if input is not in mbox format."

  /**
   * The start of `filter`: in mbox mode the first line must start with
   * `From ` (a missing line reads as empty) and is copied; the lines left
   * hold the headers.
   */
  function MboxHead(cfg: FilterConfig, lines: seq<string>): (r: Result<(seq<string>, seq<string>)>)
    ensures r.Success? <==> !cfg.isMbox || (|lines| > 0 && IsFromLine(lines[0]))
    ensures r.Success? ==> r.value.0 + r.value.1 == lines
    ensures r.Success? ==> |r.value.0| == if cfg.isMbox then 1 else 0
  {
    if !cfg.isMbox then Success(([], lines))
    else if |lines| == 0 || !IsFromLine(lines[0]) then
      Failure(NOT_MBOX)
    else
      assert [lines[0]] + lines[1..] == lines;
      Success(([lines[0]], lines[1..]))
  }

  /**
   * `filter(config, in, out)`: the `From ` line, the rewritten headers, then
   * the rest of the input (blank line and body) unchanged; or the input
   * error, when the `From ` line or a header is malformed or the input ends
   * inside the headers.
   */
  function Filter(cfg: FilterConfig, lines: seq<string>, today: Prvs.Day): (r: Result<seq<string>>)
    ensures r.Success? <==> MboxHead(cfg, lines).Success? && ReadHeaders(MboxHead(cfg, lines).value.1, true).Success?
    ensures r.Success? ==>
      var (head, input) := MboxHead(cfg, lines).value;
      var body := ReadHeaders(input, true).value.1;
      && head <= r.value
      && |body| <= |r.value| && r.value[|r.value| - |body|..] == body
  {
    var (head, input) :- MboxHead(cfg, lines);
    var (hs, body) :- ReadHeaders(input, true);
    var out := head + RewriteHeaders(cfg, hs, today) + body;
    assert out[|out| - |body|..] == body;
    Success(out)
  }

  /**
   * End to end: the filter writes the `From ` line, the headers before the
   * first keyed BATV recipient copied, that recipient restored with its
   * verdict, the later headers copied, then the body; any status header
   * the message carried is gone.
   */
  lemma FilterRewritesFirst(cfg: FilterConfig, lines: seq<string>, today: Prvs.Day, pre: seq<Header>, h: Header, post: seq<Header>)
    requires MboxHead(cfg, lines).Success?
    requires ReadHeaders(MboxHead(cfg, lines).value.1, true).Success?
    requires ReadHeaders(MboxHead(cfg, lines).value.1, true).value.0 == pre + [h] + post
    requires !DropStatus(h) && Qualifies(cfg, h)
    requires forall j | 0 <= j < |pre| :: DropStatus(pre[j]) || !Qualifies(cfg, pre[j])
    ensures var (head, input) := MboxHead(cfg, lines).value;
      Filter(cfg, lines, today)
        == Success(head + (CopyThrough(pre) + Rewritten(cfg, h, today) + CopyThrough(post)) + ReadHeaders(input, true).value.1)
  {
    FirstQualifyingRewritten(pre, h, post, DropStatus, h => Qualifies(cfg, h), h => Rewritten(cfg, h, today));
  }

  /** Without a keyed BATV recipient the filter only drops the status headers. */
  lemma FilterCopiesUnkeyed(cfg: FilterConfig, lines: seq<string>, today: Prvs.Day)
    requires MboxHead(cfg, lines).Success?
    requires ReadHeaders(MboxHead(cfg, lines).value.1, true).Success?
    requires var hs := ReadHeaders(MboxHead(cfg, lines).value.1, true).value.0;
      forall j | 0 <= j < |hs| :: DropStatus(hs[j]) || !Qualifies(cfg, hs[j])
    ensures var (head, input) := MboxHead(cfg, lines).value;
      var (hs, body) := ReadHeaders(input, true).value;
      Filter(cfg, lines, today) == Success(head + CopyThrough(hs) + body)
  {
    var hs := ReadHeaders(MboxHead(cfg, lines).value.1, true).value.0;
    NoneQualifyCopied(hs, DropStatus, h => Qualifies(cfg, h), h => Rewritten(cfg, h, today));
  }
}
