/**
 * The RFC 5322 header reading shared by batv-filter.cpp (`read_header`) and
 * batv-validate.cpp (`parse_header`), and the `X-Batv-Status` header every
 * BATV program strips from incoming mail.
 *
 * A message is read as its lines, without their line feeds: an empty line
 * is the blank line that ends the headers, and running out of lines is the
 * end of the input.
 */
module MessageHeaders {
  import opened Wrappers
  import opened Ascii

  /** A header as the programs keep it: the text before the first colon, and everything after it. */
  datatype Header = Header(name: string, value: string)

  /** The header BATV writes its verdict into, and removes from incoming mail. */
  const STATUS_HEADER := "X-Batv-Status"

  /** `strcasecmp(name, "X-Batv-Status") == 0`. */
  predicate IsStatusHeader(name: string) {
    EqualsIgnoreCase(CStr(name), STATUS_HEADER)
  }

  /** `strcasecmp(name, rcpt_header) == 0`: the header names the envelope recipient. */
  predicate NamesRecipient(name: string, rcptHeader: string) {
    EqualsIgnoreCase(CStr(name), CStr(rcptHeader))
  }

  /** `strncmp(line.c_str(), "From ", 5) == 0`: the line that opens a message in mbox format. */
  predicate IsFromLine(line: string) {
    StartsWith(CStr(line), "From ")
  }

  /** A line that starts with a space or a tab continues the header before it. */
  predicate IsContinuation(line: string) {
    |line| > 0 && (line[0] == ' ' || line[0] == '\t')
  }

  /** How many of the leading lines are continuation lines. */
  function ContinuationCount(lines: seq<string>): (k: nat)
    ensures k <= |lines|
    ensures forall i | 0 <= i < k :: IsContinuation(lines[i])
    ensures k < |lines| ==> !IsContinuation(lines[k])
  {
    if |lines| == 0 || !IsContinuation(lines[0]) then 0 else 1 + ContinuationCount(lines[1..])
  }

  /** Continuation lines appended to a value, each after a line feed. */
  function Unfold(lines: seq<string>): string {
    if |lines| == 0 then "" else "\n" + lines[0] + Unfold(lines[1..])
  }

  /** The text of a header as the programs copy it through: name, colon, value. */
  function HeaderText(h: Header): string {
    h.name + ":" + h.value
  }

  /**
   * `parse_header(first_line, in, name, value)` (and the body of
   * `read_header`): a first line that is itself a continuation, or has no
   * colon, is an input error; otherwise the header takes every continuation
   * line after it. The header's text is exactly the lines it was read from
   * joined by line feeds, and its name holds no colon.
   */
  function ParseHeader(firstLine: string, rest: seq<string>): (r: Result<(Header, seq<string>)>)
    ensures r.Success? <==> !IsContinuation(firstLine) && ':' in firstLine
    ensures r.Success? ==>
      var k := ContinuationCount(rest);
      && ':' !in r.value.0.name
      && HeaderText(r.value.0) == firstLine + Unfold(rest[..k])
      && r.value.1 == rest[k..]
  {
    if IsContinuation(firstLine) then Failure("Malformed message headers: unexpected continuation header")
    else
      match FindFirst(firstLine, ':')
      case None => Failure("No colon in message header line")
      case Some(c) =>
        var k := ContinuationCount(rest);
        var h := Header(firstLine[..c], firstLine[c + 1..] + Unfold(rest[..k]));
        assert firstLine == firstLine[..c] + ":" + firstLine[c + 1..];
        Success((h, rest[k..]))
  }

  /** A name and first value that meet at the only colon of the name part are split back at that colon. */
  lemma {:induction false} SplitAtFirstColon(name: string, v: string)
    requires ':' !in name
    ensures FindFirst(name + ":" + v, ':') == Some(|name|)
  {
    var line := name + ":" + v;
    assert line[..|name|] == name;
    FindFirstIs(line, ':', |name|);
  }

  /**
   * Reading is the inverse of writing: a header written as its first line
   * and continuation lines, followed by a line that does not continue it, is
   * read back with the continuation lines joined into its value.
   */
  lemma {:induction false} ParseHeaderLines(name: string, v: string, conts: seq<string>, rest: seq<string>)
    requires ':' !in name && !IsContinuation(name + ":" + v)
    requires forall i | 0 <= i < |conts| :: IsContinuation(conts[i])
    requires |rest| > 0 ==> !IsContinuation(rest[0])
    ensures ParseHeader(name + ":" + v, conts + rest) == Success((Header(name, v + Unfold(conts)), rest))
  {
    SplitAtFirstColon(name, v);
    ContinuationsEnd(conts, rest);
    var line := name + ":" + v;
    assert line[..|name|] == name && line[|name| + 1..] == v;
    assert (conts + rest)[..|conts|] == conts && (conts + rest)[|conts|..] == rest;
  }

  /** The continuation lines before a line that does not continue are all counted. */
  lemma {:induction false} ContinuationsEnd(conts: seq<string>, rest: seq<string>)
    requires forall i | 0 <= i < |conts| :: IsContinuation(conts[i])
    requires |rest| > 0 ==> !IsContinuation(rest[0])
    ensures ContinuationCount(conts + rest) == |conts|
    decreases |conts|
  {
    if |conts| > 0 {
      assert (conts + rest)[1..] == conts[1..] + rest;
      ContinuationsEnd(conts[1..], rest);
    } else {
      assert conts + rest == rest;
    }
  }

  /** Lines as the stream holds them: each one followed by a line feed. */
  function Text(lines: seq<string>): string {
    if |lines| == 0 then "" else lines[0] + "\n" + Text(lines[1..])
  }

  lemma {:induction false} TextAppend(a: seq<string>, b: seq<string>)
    ensures Text(a + b) == Text(a) + Text(b)
    decreases |a|
  {
    if |a| == 0 {
      assert a + b == b;
    } else {
      assert (a + b)[1..] == a[1..] + b;
      TextAppend(a[1..], b);
    }
  }

  /** Joining continuation lines into a value loses nothing but the last line feed. */
  lemma {:induction false} UnfoldText(lines: seq<string>)
    ensures Unfold(lines) + "\n" == "\n" + Text(lines)
    decreases |lines|
  {
    if |lines| > 0 {
      var u, t := Unfold(lines[1..]), Text(lines[1..]);
      UnfoldText(lines[1..]);
      calc {
        Unfold(lines) + "\n";
        ("\n" + lines[0] + u) + "\n";
        "\n" + lines[0] + (u + "\n");
        "\n" + lines[0] + ("\n" + t);
        "\n" + (lines[0] + "\n" + t);
      }
    }
  }

  /**
   * A header read from the input, followed by the input left after it, is
   * the input it was read from: header reading neither drops nor reorders
   * text.
   */
  lemma ParseHeaderText(firstLine: string, rest: seq<string>)
    requires ParseHeader(firstLine, rest).Success?
    ensures var (h, after) := ParseHeader(firstLine, rest).value;
      HeaderText(h) + "\n" + Text(after) == Text([firstLine] + rest)
  {
    var k := ContinuationCount(rest);
    var (h, after) := ParseHeader(firstLine, rest).value;
    assert rest == rest[..k] + rest[k..];
    TextAppend(rest[..k], rest[k..]);
    UnfoldText(rest[..k]);
    assert ([firstLine] + rest)[1..] == rest;
    Regroup(firstLine, Unfold(rest[..k]), Text(rest[..k]), Text(rest[k..]));
  }

  /** Moving a line feed from the end of the continuations to their front. */
  lemma Regroup(first: string, u: string, c: string, a: string)
    requires u + "\n" == "\n" + c
    ensures first + u + "\n" + a == first + "\n" + (c + a)
  {
    calc {
      first + u + "\n" + a;
      first + (u + "\n") + a;
      first + ("\n" + c) + a;
      first + "\n" + (c + a);
    }
  }

  /** The texts of a run of headers, in order. */
  function Texts(hs: seq<Header>): (out: seq<string>)
    ensures |out| == |hs| && forall i | 0 <= i < |hs| :: out[i] == HeaderText(hs[i])
  {
    if |hs| == 0 then [] else [HeaderText(hs[0])] + Texts(hs[1..])
  }

  /** The text of a header run grows by one header at the front. */
  lemma ConsTexts(h: Header, hs: seq<Header>, tail: string)
    ensures Text(Texts([h] + hs)) + tail == HeaderText(h) + "\n" + (Text(Texts(hs)) + tail)
  {
    assert Texts([h] + hs) == [HeaderText(h)] + Texts(hs);
    assert ([HeaderText(h)] + Texts(hs))[1..] == Texts(hs);
  }

  /**
   * The header loop of the filters: headers up to the blank line. A stray
   * continuation line or a line without a colon is an input error, and so
   * is the input ending first when `needBlank` (`read_header`); otherwise
   * the end of the input ends the headers too (`parse_mail`). What is left
   * is the blank line and the body, or nothing.
   */
  function ReadHeaders(lines: seq<string>, needBlank: bool): (r: Result<(seq<Header>, seq<string>)>)
    ensures r.Success? ==> (|r.value.1| > 0 && r.value.1[0] == "") || (!needBlank && r.value.1 == [])
    ensures r.Success? ==> forall h | h in r.value.0 :: ':' !in h.name
    ensures needBlank && "" !in lines ==> r.Failure?
    decreases |lines|
  {
    if |lines| == 0 then (if needBlank then Failure(PREMATURE_END) else Success(([], [])))
    else if lines[0] == "" then Success(([], lines))
    else
      var (h, after) :- ParseHeader(lines[0], lines[1..]);
      assert forall i | 0 <= i < |after| :: after[i] in lines;
      var (hs, body) :- ReadHeaders(after, needBlank);
      Success(([h] + hs, body))
  }

  /** The input error of `read_header` at the end of the input. */
  const PREMATURE_END := "Premature end of message headers"

  /** Reading the headers loses no text: their texts and what is left are the input. */
  lemma {:induction false} ReadHeadersText(lines: seq<string>, needBlank: bool)
    requires ReadHeaders(lines, needBlank).Success?
    ensures var (hs, body) := ReadHeaders(lines, needBlank).value;
      Text(Texts(hs)) + Text(body) == Text(lines)
    decreases |lines|
  {
    if |lines| > 0 && lines[0] != "" {
      var (h, after) := ParseHeader(lines[0], lines[1..]).value;
      var (hs, body) := ReadHeaders(after, needBlank).value;
      ReadHeadersText(after, needBlank);
      ParseHeaderText(lines[0], lines[1..]);
      assert [lines[0]] + lines[1..] == lines;
      ConsTexts(h, hs, Text(body));
    }
  }

  /** The headers every BATV filter drops, as a test on headers. */
  const DropStatus: Header -> bool := (h: Header) => IsStatusHeader(h.name)

  /** The texts of the headers `drop` does not remove, in order. */
  function Keep(hs: seq<Header>, drop: Header -> bool): (out: seq<string>)
    ensures |out| <= |hs|
  {
    if |hs| == 0 then []
    else (if drop(hs[0]) then [] else [HeaderText(hs[0])]) + Keep(hs[1..], drop)
  }

  /** What the filters write for headers they leave alone: every header but the status header, unchanged. */
  function CopyThrough(hs: seq<Header>): seq<string> {
    Keep(hs, DropStatus)
  }

  lemma {:induction false} KeepAppend(a: seq<Header>, b: seq<Header>, drop: Header -> bool)
    ensures Keep(a + b, drop) == Keep(a, drop) + Keep(b, drop)
    decreases |a|
  {
    if |a| == 0 {
      assert a + b == b;
    } else {
      assert (a + b)[1..] == a[1..] + b;
      KeepAppend(a[1..], b, drop);
    }
  }

  /** A header kept is written unchanged; a header dropped leaves no trace. */
  lemma KeepOne(h: Header, drop: Header -> bool)
    ensures Keep([h], drop) == if drop(h) then [] else [HeaderText(h)]
  {
    assert [h][1..] == [];
  }

  /**
   * The header loop both filters share: headers `drop` accepts are removed,
   * the first other header `qualifies` accepts is replaced by `rewrite`'s
   * lines, and every other header is copied through. `done` says a header
   * has been replaced already.
   */
  function RewriteFirst(hs: seq<Header>, done: bool, drop: Header -> bool, qualifies: Header -> bool, rewrite: Header -> seq<string>): seq<string> {
    if |hs| == 0 then []
    else if drop(hs[0]) then RewriteFirst(hs[1..], done, drop, qualifies, rewrite)
    else if !done && qualifies(hs[0]) then rewrite(hs[0]) + RewriteFirst(hs[1..], true, drop, qualifies, rewrite)
    else [HeaderText(hs[0])] + RewriteFirst(hs[1..], done, drop, qualifies, rewrite)
  }

  /** Once a header has been replaced, every later header is kept or dropped. */
  lemma {:induction false} RewriteAfterDone(hs: seq<Header>, drop: Header -> bool, qualifies: Header -> bool, rewrite: Header -> seq<string>)
    ensures RewriteFirst(hs, true, drop, qualifies, rewrite) == Keep(hs, drop)
    decreases |hs|
  {
    if |hs| > 0 {
      RewriteAfterDone(hs[1..], drop, qualifies, rewrite);
    }
  }

  /** With no qualifying header, every header is kept or dropped. */
  lemma {:induction false} NoneQualifyCopied(hs: seq<Header>, drop: Header -> bool, qualifies: Header -> bool, rewrite: Header -> seq<string>)
    requires forall j | 0 <= j < |hs| :: drop(hs[j]) || !qualifies(hs[j])
    ensures RewriteFirst(hs, false, drop, qualifies, rewrite) == Keep(hs, drop)
    decreases |hs|
  {
    if |hs| > 0 {
      NoneQualifyCopied(hs[1..], drop, qualifies, rewrite);
    }
  }

  /**
   * Only the first qualifying header is replaced: the headers before and
   * after it are kept, less the dropped ones.
   */
  lemma {:induction false} FirstQualifyingRewritten(pre: seq<Header>, h: Header, post: seq<Header>, drop: Header -> bool, qualifies: Header -> bool, rewrite: Header -> seq<string>)
    requires !drop(h) && qualifies(h)
    requires forall j | 0 <= j < |pre| :: drop(pre[j]) || !qualifies(pre[j])
    ensures RewriteFirst(pre + [h] + post, false, drop, qualifies, rewrite)
         == Keep(pre, drop) + rewrite(h) + Keep(post, drop)
    decreases |pre|
  {
    var hs := pre + [h] + post;
    if |pre| == 0 {
      assert hs == [h] + post;
      RewriteHead(h, post, drop, qualifies, rewrite);
    } else {
      assert hs[0] == pre[0] && hs[1..] == pre[1..] + [h] + post;
      FirstQualifyingRewritten(pre[1..], h, post, drop, qualifies, rewrite);
      var c, r, p := Keep(pre[1..], drop), rewrite(h), Keep(post, drop);
      assert RewriteFirst(hs[1..], false, drop, qualifies, rewrite) == c + r + p;
      if !drop(pre[0]) {
        assert Keep(pre, drop) == [HeaderText(pre[0])] + c;
        assert [HeaderText(pre[0])] + (c + r + p) == ([HeaderText(pre[0])] + c) + r + p;
      } else {
        assert Keep(pre, drop) == c;
      }
    }
  }

  /** A qualifying first header is replaced, and the rest kept. */
  lemma RewriteHead(h: Header, post: seq<Header>, drop: Header -> bool, qualifies: Header -> bool, rewrite: Header -> seq<string>)
    requires !drop(h) && qualifies(h)
    ensures RewriteFirst([h] + post, false, drop, qualifies, rewrite) == rewrite(h) + Keep(post, drop)
  {
    var hs := [h] + post;
    assert hs[0] == h && hs[1..] == post;
    RewriteAfterDone(post, drop, qualifies, rewrite);
  }

  /** `after_ws`: the value as a C string, past its leading spaces (tabs are kept). */
  function AfterWs(s: string): (r: string)
    ensures |r| <= |CStr(s)| && r == CStr(s)[|CStr(s)| - |r|..]
    ensures |r| > 0 ==> r[0] != ' '
    ensures forall i | 0 <= i < |CStr(s)| - |r| :: CStr(s)[i] == ' '
  {
    SkipSpaces(CStr(s))
  }

  /** `s` past its leading spaces. */
  function SkipSpaces(s: string): (r: string)
    ensures |r| <= |s| && r == s[|s| - |r|..]
    ensures |r| > 0 ==> r[0] != ' '
    ensures forall i | 0 <= i < |s| - |r| :: s[i] == ' '
  {
    if |s| > 0 && s[0] == ' ' then SkipSpaces(s[1..]) else s
  }
}
