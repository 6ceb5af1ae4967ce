/**
 * Scoped rewriting of a CRLF-framed request (matchreplace.py: split_request,
 * replace_in_selection, replace_in_body, replace_in_headers, replace_in_url,
 * perform_replace and the scope dispatch of do_replace).
 *
 * A request is framed as in section 2.1 of RFC 9112: a start-line, field
 * lines ending in CRLF, an empty line, then the body. The code only relies on
 * that framing: it splits at the first "\r\n\r\n", then at the first "\r\n",
 * and cuts the start-line at single spaces. Every rewriter returns the new
 * text and, when it has one, the region of the new text that holds the
 * replaced part.
 */
module Request {
  import opened Text

  const CRLF: string := "\r\n"
  const Separator: string := "\r\n\r\n"

  /**
   * The regular-expression engine, which is not modelled. `regexSub(pattern,
   * replacement, text, ignoreCase)` stands for `re.sub` and is None when it
   * raises `re.error`: the pattern does not compile, or the replacement
   * template is invalid. `foldSub(pattern, replacement, text)` stands for
   * the case-insensitive literal substitution (the escaped pattern compiled
   * with IGNORECASE). Its pattern always compiles, but its replacement is
   * still read as a template, and a bad group reference such as "\1" raises
   * an error that nothing in `perform_replace` catches. The model takes
   * `foldSub` to succeed; that error path is not modelled.
   */
  datatype Engine = Engine(
    regexSub: (string, string, string, bool) -> Option<string>,
    foldSub: (string, string, string) -> string)

  /** What the user typed and ticked: Match, Replace, "Regex", "Ignore case". */
  datatype MatchSpec = MatchSpec(pattern: string, replacement: string, useRegex: bool, ignoreCase: bool)
  {
    /** Plain case-sensitive `str.replace`, the one mode modelled concretely. */
    predicate Literal() { !useRegex && !ignoreCase }
  }

  /** Where the replaced text now sits in the new message. */
  datatype Region = Region(start: nat, end: nat)

  /** A rewriter's result: the new text and, unless it fell back, the region. */
  datatype Rewrite = Rewrite(text: string, region: Option<Region>)

  /** A message cut at its first blank line. */
  datatype Halves = Halves(head: string, body: string)

  /**
   * The matcher: None only when the regular expression does not compile.
   * Shared by perform_replace and the path rewrite of replace_in_url, which
   * repeats the same three-way choice.
   */
  function Substitute(text: string, m: MatchSpec, e: Engine): (r: Option<string>)
    requires m.pattern != []
    ensures r.None? ==> m.useRegex
    ensures m.Literal() && !Contains(text, m.pattern) ==> r == Some(text)
  {
    if m.useRegex then e.regexSub(m.pattern, m.replacement, text, m.ignoreCase)
    else if m.ignoreCase then Some(e.foldSub(m.pattern, m.replacement, text))
    else
      assert !Contains(text, m.pattern) ==> ReplaceAll(text, m.pattern, m.replacement) == text by {
        if !Contains(text, m.pattern) { ReplaceAllAbsent(text, m.pattern, m.replacement); }
      }
      Some(ReplaceAll(text, m.pattern, m.replacement))
  }

  /** perform_replace: an invalid regular expression leaves the text as it was. */
  function PerformReplace(text: string, m: MatchSpec, e: Engine): (r: string)
    requires m.pattern != []
    ensures e.regexSub(m.pattern, m.replacement, text, m.ignoreCase).None? && m.useRegex ==> r == text
    ensures m.Literal() && !Contains(text, m.pattern) ==> r == text
    ensures m.Literal() && m.replacement == m.pattern ==> r == text
  {
    assert m.Literal() && m.replacement == m.pattern ==> ReplaceAll(text, m.pattern, m.pattern) == text by {
      if m.Literal() && m.replacement == m.pattern { ReplaceAllSelf(text, m.pattern); }
    }
    match Substitute(text, m, e)
    case None => text
    case Some(t) => t
  }

  /** split_request: cut at the first "\r\n\r\n", or keep everything as head. */
  function SplitRequest(s: string): (r: Halves)
    ensures Contains(s, Separator) ==> r.head + Separator + r.body == s
    ensures Contains(s, Separator) ==> forall j: nat :: OccursAt(s, Separator, j) ==> |r.head| <= j
    ensures !Contains(r.head, Separator)
    ensures !Contains(s, Separator) ==> r == Halves(s, [])
  {
    match IndexOf(s, Separator)
    case None => Halves(s, [])
    case Some(i) =>
      SpliceAt(s, Separator, i);
      BeforeFirstIsFree(s, Separator, i);
      Halves(s[..i], s[i + |Separator|..])
  }

  /** `x.split("\r\n")[0]`: the text before the first CRLF. */
  function FirstLine(x: string): string
  {
    Split(x, CRLF)[0]
  }

  /** `"\r\n".join(x.split("\r\n")[1:])`: the text after the first CRLF. */
  function AfterFirstLine(x: string): string
  {
    Join(Split(x, CRLF)[1..], CRLF)
  }

  /** A text is its first line, then (when it has one) a CRLF and the rest. */
  lemma {:induction false} LineSplice(x: string)
    ensures !Contains(FirstLine(x), CRLF)
    ensures Contains(x, CRLF) ==> x == FirstLine(x) + CRLF + AfterFirstLine(x)
    ensures !Contains(x, CRLF) ==> FirstLine(x) == x && AfterFirstLine(x) == []
  {
    SplitFirst(x, CRLF);
  }

  /** replace_in_selection, with Python's clamped slicing. */
  function ReplaceInSelection(s: string, m: MatchSpec, e: Engine, start: nat, end: nat): (r: Rewrite)
    requires m.pattern != []
    ensures r.region.Some? && r.region.value.start == start
    ensures start <= end <= |s| ==>
      var b := r.region.value.end;
      && start <= b <= |r.text|
      && r.text == s[..start] + r.text[start..b] + s[end..]
      && r.text[start..b] == PerformReplace(s[start..end], m, e)
    ensures start <= end <= |s| && m.Literal() && !Contains(s[start..end], m.pattern) ==> r.text == s
  {
    var replaced := PerformReplace(Slice(s, start, end), m, e);
    var text := Take(s, start) + replaced + Drop(s, end);
    if start <= end <= |s| then
      Parts3(s[..start], replaced, s[end..]);
      Slices3(s, start, end);
      Rewrite(text, Some(Region(start, start + |replaced|)))
    else
      Rewrite(text, Some(Region(start, start + |replaced|)))
  }

  /**
   * replace_in_body: the head and a canonical separator, then the rewritten
   * body; the region is the whole new body.
   */
  function ReplaceInBody(s: string, m: MatchSpec, e: Engine): (r: Rewrite)
    requires m.pattern != []
    ensures r.region.Some?
    ensures var Region(a, b) := r.region.value;
      && a == |SplitRequest(s).head| + |Separator| && b == |r.text| && a <= b
      && r.text[..a] == SplitRequest(s).head + Separator
      && r.text[a..] == PerformReplace(SplitRequest(s).body, m, e)
    ensures Contains(s, Separator) ==>
      var a := r.region.value.start; a <= |s| && r.text[..a] == s[..a]
    ensures m.Literal() && !Contains(SplitRequest(s).body, m.pattern) ==>
      r.text == if Contains(s, Separator) then s else s + Separator
  {
    var h := SplitRequest(s);
    var replaced := PerformReplace(h.body, m, e);
    var text := h.head + Separator + replaced;
    assert text[..|h.head| + 4] == h.head + Separator;
    assert text[|h.head| + 4..] == replaced;
    Rewrite(text, Some(Region(|h.head| + |Separator|, |h.head| + |Separator| + |replaced|)))
  }

  /**
   * replace_in_headers: the start-line stays, the header block after it is
   * rewritten, and the CRLF between them is written only when the new block
   * is not empty; the region is the new header block.
   */
  function ReplaceInHeaders(s: string, m: MatchSpec, e: Engine): (r: Rewrite)
    requires m.pattern != []
  {
    var h := SplitRequest(s);
    // the `if not lines` guard cannot fire: Split never returns []
    var startLine := FirstLine(h.head);
    var replaced := PerformReplace(AfterFirstLine(h.head), m, e);
    var newHead := if replaced != [] then startLine + CRLF + replaced else startLine;
    Rewrite(newHead + Separator + h.body,
            Some(Region(|startLine| + |CRLF|, |startLine| + |CRLF| + |replaced|)))
  }

  /**
   * The start-line replace_in_headers keeps is the text before the first CRLF
   * of the message: it holds no CRLF, begins the message, and is followed by a
   * CRLF or by nothing.
   */
  lemma {:induction false} StartLineOfHead(s: string)
    ensures var line := FirstLine(SplitRequest(s).head);
      && !Contains(line, CRLF)
      && |line| <= |s| && s[..|line|] == line
      && (|line| == |s| || OccursAt(s, CRLF, |line|))
  {
    var h := SplitRequest(s);
    var line := FirstLine(h.head);
    LineSplice(h.head);
    HeadIsPrefix(s);
    if Contains(h.head, CRLF) {
      var after, x := AfterFirstLine(h.head), s[|h.head|..];
      PrefixThenRest(s, h.head);
      Assoc(line, CRLF + after, x);
      Assoc(line, CRLF, after);
      CrlfAfter(s, line, CRLF + after + x);
    } else if Contains(s, Separator) {
      Assoc(line, Separator, h.body);
      CrlfAfter(s, line, Separator + h.body);
    } else {
      assert s[..|s|] == s;
    }
  }

  lemma PrefixThenRest(s: string, pre: string)
    requires |pre| <= |s| && s[..|pre|] == pre
    ensures s == pre + s[|pre|..]
  {
    assert s == s[..|pre|] + s[|pre|..];
  }

  lemma CrlfAfter(s: string, line: string, post: string)
    requires s == line + post && |post| >= 2 && post[..2] == CRLF
    ensures s[..|line|] == line && OccursAt(s, CRLF, |line|)
  {
    assert s[..|line|] == line;
    assert s[|line|..|line| + 2] == post[..2];
  }

  /**
   * What replace_in_headers writes: the start-line, the new header block at
   * the reported region, the separator and the untouched body; no CRLF after
   * the start-line when the new block is empty.
   */
  lemma {:induction false} HeadersShape(s: string, m: MatchSpec, e: Engine)
    requires m.pattern != []
    ensures var h := SplitRequest(s);
      var line := FirstLine(h.head);
      var block := PerformReplace(AfterFirstLine(h.head), m, e);
      var r := ReplaceInHeaders(s, m, e);
      && r.region == Some(Region(|line| + 2, |line| + 2 + |block|))
      && |line| + 2 + |block| <= |r.text|
      && r.text[..|line|] == line
      && r.text[|line| + 2..|line| + 2 + |block|] == block
      && (block == [] ==> r.text[|line|..] == Separator + h.body)
      && (block != [] ==> r.text[|line|..|line| + 2] == CRLF)
      && (block != [] ==> r.text[|line| + 2 + |block|..] == Separator + h.body)
  {
    var h := SplitRequest(s);
    var line := FirstLine(h.head);
    var block := PerformReplace(AfterFirstLine(h.head), m, e);
    HeadersText(s, m, e);
    if block == [] {
      Parts3(line, Separator, h.body);
      assert (line + Separator + h.body)[|line| + 2..|line| + 2] == [];
    } else {
      Assoc(line + CRLF + block, Separator, h.body);
      Parts4(line, CRLF, block, Separator + h.body);
    }
  }

  /** Concatenation regrouped; the other groupings follow by applying it twice. */
  lemma Assoc(x: string, y: string, z: string)
    ensures x + (y + z) == x + y + z
  {
  }

  /** The text replace_in_headers builds, in terms of the start-line and the header block. */
  lemma HeadersText(s: string, m: MatchSpec, e: Engine)
    requires m.pattern != []
    ensures var h := SplitRequest(s);
      var line := FirstLine(h.head);
      var block := PerformReplace(AfterFirstLine(h.head), m, e);
      var newHead := if block != [] then line + CRLF + block else line;
      ReplaceInHeaders(s, m, e) == Rewrite(newHead + Separator + h.body, Some(Region(|line| + 2, |line| + 2 + |block|)))
  {
    assert |CRLF| == 2;
  }

  lemma Parts3(x: string, y: string, z: string)
    ensures (x + y + z)[..|x|] == x
    ensures (x + y + z)[|x|..|x| + |y|] == y
    ensures (x + y + z)[|x|..] == y + z
    ensures (x + y + z)[|x| + |y|..] == z
  {
  }

  lemma Parts4(w: string, x: string, y: string, z: string)
    ensures (w + x + y + z)[..|w|] == w
    ensures (w + x + y + z)[|w|..|w| + |x|] == x
    ensures (w + x + y + z)[|w| + |x|..|w| + |x| + |y|] == y
    ensures (w + x + y + z)[|w| + |x| + |y|..] == z
  {
  }

  /** The head is a prefix of the message. */
  lemma HeadIsPrefix(s: string)
    ensures |SplitRequest(s).head| <= |s| && s[..|SplitRequest(s).head|] == SplitRequest(s).head
  {
    var h := SplitRequest(s);
    if Contains(s, Separator) {
      assert s[..|h.head|] == (h.head + Separator + h.body)[..|h.head|];
    }
  }

  /** Before the first blank line there is no CRLF that ends the head. */
  lemma HeadHasNoTrailingCRLF(s: string, line: string)
    requires Contains(s, Separator)
    ensures SplitRequest(s).head != line + CRLF
  {
    var h := SplitRequest(s);
    if h.head == line + CRLF {
      assert s == line + CRLF + Separator + h.body;
      assert s[|line|..|line| + 4] == Separator;
      assert OccursAt(s, Separator, |line|);
    }
  }

  /**
   * With nothing to replace in the header block, a framed message comes back
   * as it was; an unframed one gains the separator, and loses the CRLF of a
   * lone start-line that ended in one.
   */
  lemma HeadersNoMatch(s: string, m: MatchSpec, e: Engine)
    requires m.pattern != [] && m.Literal()
    requires !Contains(AfterFirstLine(SplitRequest(s).head), m.pattern)
    ensures Contains(s, Separator) ==> ReplaceInHeaders(s, m, e).text == s
    ensures !Contains(s, Separator) && AfterFirstLine(s) != [] ==> ReplaceInHeaders(s, m, e).text == s + Separator
    ensures !Contains(s, Separator) && AfterFirstLine(s) == [] ==> ReplaceInHeaders(s, m, e).text == FirstLine(s) + Separator
  {
    HeadersKept(s, m, e);
  }

  /** The same, for any matcher that gives the header block back unchanged. */
  lemma {:induction false} HeadersKept(s: string, m: MatchSpec, e: Engine)
    requires m.pattern != []
    requires PerformReplace(AfterFirstLine(SplitRequest(s).head), m, e) == AfterFirstLine(SplitRequest(s).head)
    ensures Contains(s, Separator) ==> ReplaceInHeaders(s, m, e).text == s
    ensures !Contains(s, Separator) && AfterFirstLine(s) != [] ==> ReplaceInHeaders(s, m, e).text == s + Separator
    ensures !Contains(s, Separator) && AfterFirstLine(s) == [] ==> ReplaceInHeaders(s, m, e).text == FirstLine(s) + Separator
  {
    var h := SplitRequest(s);
    var line := FirstLine(h.head);
    LineSplice(h.head);
    if Contains(s, Separator) {
      HeadHasNoTrailingCRLF(s, line);
    }
  }

  /** `s.split("\r\n")[0].split(" ")`: method, path and the version's pieces. */
  function StartLineTokens(s: string): seq<string>
  {
    Split(FirstLine(s), " ")
  }

  /**
   * replace_in_url: method SP path SP version, with only the path rewritten.
   * The host analyser failing, fewer than three tokens, or a regular
   * expression that does not compile all return the original with no region.
   */
  function ReplaceInUrl(s: string, m: MatchSpec, e: Engine, analyzerOk: bool): (r: Rewrite)
    requires m.pattern != []
    ensures !analyzerOk || |StartLineTokens(s)| < 3 ==> r == Rewrite(s, None)
    ensures r.region.None? ==> r.text == s
  {
    var lines := Split(s, CRLF);
    var parts := Split(lines[0], " ");
    if !analyzerOk || |parts| < 3 then Rewrite(s, None)
    else
      match Substitute(parts[1], m, e)
      case None => Rewrite(s, None)
      case Some(path) =>
        var verb, version := parts[0], Join(parts[2..], " ");
        Rewrite(verb + " " + path + " " + version + CRLF + Join(lines[1..], CRLF),
                Some(Region(|verb| + 1, |verb| + 1 + |path|)))
  }

  /** The start-line is `method SP path SP version`, the version keeping its own spaces. */
  lemma {:induction false} StartLineShape(s: string)
    requires |StartLineTokens(s)| >= 3
    ensures var t := StartLineTokens(s);
      FirstLine(s) == t[0] + " " + t[1] + " " + Join(t[2..], " ")
  {
    JoinSplit(FirstLine(s), " ");
    JoinThree(StartLineTokens(s), " ");
  }

  /** Three or more pieces joined: the first, the second, then the rest joined. */
  lemma JoinThree(t: seq<string>, d: string)
    requires |t| >= 3
    ensures Join(t, d) == t[0] + d + t[1] + d + Join(t[2..], d)
  {
    assert t[1..][0] == t[1] && t[1..][1..] == t[2..];
    assert Join(t[1..], d) == t[1] + d + Join(t[2..], d);
  }

  /**
   * When the URL scope rewrites, the new message is the old one with the
   * path swapped for the new path (method, version and the rest kept), plus a
   * CRLF when the original had none; the region holds the new path.
   */
  lemma {:induction false} UrlSplice(s: string, m: MatchSpec, e: Engine, analyzerOk: bool)
    requires m.pattern != []
    requires ReplaceInUrl(s, m, e, analyzerOk).region.Some?
    ensures var t := StartLineTokens(s);
      var r := ReplaceInUrl(s, m, e, analyzerOk);
      var a := |t[0]| + 1;
      var b := a + |t[1]|;
      && analyzerOk && |t| >= 3
      && b <= |s| && s[..a] == t[0] + " " && s[a..b] == t[1]
      && r.region.value.start == a && a <= r.region.value.end <= |r.text|
      && Substitute(t[1], m, e) == Some(r.text[a..r.region.value.end])
      && r.text == s[..a] + r.text[a..r.region.value.end] + s[b..] + (if Contains(s, CRLF) then [] else CRLF)
  {
    UrlRewrote(s, m, e, analyzerOk);
    UrlRewrittenText(s, m, e, analyzerOk);
    var t := StartLineTokens(s);
    var text := ReplaceInUrl(s, m, e, analyzerOk).text;
    var pre, path := t[0] + " ", Substitute(t[1], m, e).value;
    var version, rest := Join(t[2..], " "), AfterFirstLine(s);
    var tail := UrlOriginalShape(s);
    var post, extra := " " + version + tail, if Contains(s, CRLF) then [] else CRLF;
    VersionAndRest(s, version, tail);
    assert text == pre + path + (post + extra);
    SwapFacts(s, text, pre, t[1], path, post, extra);
    assert |pre| == |t[0]| + 1;
  }

  /** After the path, the rebuilt message writes the version, a CRLF and the rest. */
  lemma VersionAndRest(s: string, version: string, tail: string)
    requires tail == if Contains(s, CRLF) then CRLF + AfterFirstLine(s) else []
    ensures " " + version + CRLF + AfterFirstLine(s) == " " + version + tail + (if Contains(s, CRLF) then [] else CRLF)
  {
    if Contains(s, CRLF) {
      Assoc(" ", version + CRLF, AfterFirstLine(s));
      Assoc(" ", version, CRLF);
    } else {
      LineSplice(s);
    }
  }

  /**
   * Swapping the middle of `pre + mid + post` for `newMid`, with `extra`
   * appended, keeps the text around the middle.
   */
  lemma SwapFacts(s: string, text: string, pre: string, mid: string, newMid: string, post: string, extra: string)
    requires s == pre + mid + post && text == pre + newMid + (post + extra)
    ensures |pre| + |mid| <= |s| && s[..|pre|] == pre && s[|pre|..|pre| + |mid|] == mid
    ensures |pre| + |newMid| <= |text| && text[|pre|..|pre| + |newMid|] == newMid
    ensures text == s[..|pre|] + newMid + s[|pre| + |mid|..] + extra
  {
    assert s[..|pre|] == pre;
    assert s[|pre| + |mid|..] == post;
  }

  /** The message around the path: method and space, path, then the rest. */
  lemma {:induction false} UrlOriginalShape(s: string) returns (tail: string)
    requires |StartLineTokens(s)| >= 3
    ensures tail == if Contains(s, CRLF) then CRLF + AfterFirstLine(s) else []
    ensures var t := StartLineTokens(s);
      s == (t[0] + " ") + t[1] + (" " + Join(t[2..], " ") + tail)
  {
    var t := StartLineTokens(s);
    StartLineShape(s);
    LineSplice(s);
    tail := if Contains(s, CRLF) then CRLF + AfterFirstLine(s) else [];
    assert s == FirstLine(s) + tail;
    Assoc(t[0] + " " + t[1], " " + Join(t[2..], " "), tail);
    Assoc(t[0] + " " + t[1], " ", Join(t[2..], " "));
  }

  /** The URL scope rewrote only if the analyser succeeded, the start-line has three tokens and the path rewrite compiled. */
  lemma UrlRewrote(s: string, m: MatchSpec, e: Engine, analyzerOk: bool)
    requires m.pattern != []
    requires ReplaceInUrl(s, m, e, analyzerOk).region.Some?
    ensures analyzerOk && |StartLineTokens(s)| >= 3 && Substitute(StartLineTokens(s)[1], m, e).Some?
  {
  }

  /** The rebuilt message: method and space, new path, space, version, CRLF, rest. */
  lemma UrlRewrittenText(s: string, m: MatchSpec, e: Engine, analyzerOk: bool)
    requires m.pattern != []
    requires analyzerOk && |StartLineTokens(s)| >= 3 && Substitute(StartLineTokens(s)[1], m, e).Some?
    ensures var t := StartLineTokens(s);
      var path := Substitute(t[1], m, e).value;
      ReplaceInUrl(s, m, e, analyzerOk) == Rewrite(
        (t[0] + " ") + path + (" " + Join(t[2..], " ") + CRLF + AfterFirstLine(s)),
        Some(Region(|t[0]| + 1, |t[0]| + 1 + |path|)))
  {
    var t := StartLineTokens(s);
    var path := Substitute(t[1], m, e).value;
    var verb, version, rest := t[0], Join(t[2..], " "), AfterFirstLine(s);
    assert verb + " " + path + " " + version + CRLF + rest == (t[0] + " ") + path + (" " + version + CRLF + rest) by {
      Assoc(verb + " " + path, " " + version, CRLF);
      Assoc(verb + " " + path, " ", version);
      Assoc(verb + " " + path, " " + version + CRLF, rest);
    }
  }

  /**
   * With nothing to replace in the path, the URL scope gives back the
   * message, plus a CRLF when it had none.
   */
  lemma UrlNoMatch(s: string, m: MatchSpec, e: Engine)
    requires m.pattern != [] && m.Literal()
    requires |StartLineTokens(s)| >= 3 && !Contains(StartLineTokens(s)[1], m.pattern)
    ensures ReplaceInUrl(s, m, e, true).text == s + (if Contains(s, CRLF) then [] else CRLF)
  {
    var t := StartLineTokens(s);
    assert Substitute(t[1], m, e) == Some(t[1]);
    UrlRewrittenText(s, m, e, true);
    var version := Join(t[2..], " ");
    var tail := UrlOriginalShape(s);
    VersionAndRest(s, version, tail);
    Assoc(t[0] + " " + t[1], " " + version + tail, if Contains(s, CRLF) then [] else CRLF);
  }

  /** The "Whole request" scope: the matcher on everything, the region all of it. */
  function ReplaceInWhole(s: string, m: MatchSpec, e: Engine): (r: Rewrite)
    requires m.pattern != []
    ensures r.region == Some(Region(0, |r.text|))
    ensures m.Literal() && !Contains(s, m.pattern) ==> r.text == s
  {
    var text := PerformReplace(s, m, e);
    Rewrite(text, Some(Region(0, |text|)))
  }

  /** The five entries of the scope box, and anything else it might report. */
  datatype Scope = Selection | Body | Headers | Url | WholeRequest | Unlisted

  /** What a replace attempt in a scope produced, before the tab commits it. */
  datatype Attempt = NoSelection | EmptySelection | Rewritten(rewrite: Rewrite)

  /**
   * The scope dispatch of do_replace. The selection scope rejects a missing
   * or empty selection; the fallback for an unlisted scope only rejects a
   * missing one.
   */
  function ReplaceInScope(s: string, m: MatchSpec, e: Engine, scope: Scope,
                          bounds: Option<(nat, nat)>, analyzerOk: bool): (a: Attempt)
    requires m.pattern != []
    ensures a.NoSelection? <==> (scope.Selection? || scope.Unlisted?) && bounds.None?
    ensures a.EmptySelection? <==> scope.Selection? && bounds.Some? && bounds.value.1 <= bounds.value.0
    ensures a.Rewritten? && (scope.Selection? || scope.Unlisted?) ==>
      a.rewrite.region.Some? && a.rewrite.region.value.start == bounds.value.0
  {
    match scope
    case Selection =>
      if bounds.None? then NoSelection
      else if bounds.value.1 <= bounds.value.0 then EmptySelection
      else Rewritten(ReplaceInSelection(s, m, e, bounds.value.0, bounds.value.1))
    case Body => Rewritten(ReplaceInBody(s, m, e))
    case Headers => Rewritten(ReplaceInHeaders(s, m, e))
    case Url => Rewritten(ReplaceInUrl(s, m, e, analyzerOk))
    case WholeRequest => Rewritten(ReplaceInWhole(s, m, e))
    case Unlisted =>
      if bounds.None? then NoSelection
      else Rewritten(ReplaceInSelection(s, m, e, bounds.value.0, bounds.value.1))
  }

  /** A pattern absent from a slice of a text is absent from the text's slice. */
  lemma AbsentInSlice(s: string, p: string, i: nat, j: nat)
    requires p != [] && !Contains(s, p) && i <= j <= |s|
    ensures !Contains(s[i..j], p)
  {
    if Contains(s[i..j], p) {
      var k := IndexOf(s[i..j], p).value;
      assert OccursAt(s[i..j], p, k);
      assert k + |p| <= j - i;
      SliceOfSlice(s, i, j, k, k + |p|);
      assert OccursAt(s, p, i + k);
    }
  }

  /**
   * A literal pattern that occurs nowhere in the message leaves it as it was,
   * in every scope, provided the message already has the framing the scope
   * rebuilds: a separator for the body and headers scopes, a CRLF for the URL
   * scope, and a selection inside the message.
   */
  lemma {:induction false} NoMatchKeepsMessage(s: string, m: MatchSpec, e: Engine, scope: Scope,
                                               bounds: Option<(nat, nat)>, analyzerOk: bool)
    requires m.pattern != [] && m.Literal() && !Contains(s, m.pattern)
    requires ReplaceInScope(s, m, e, scope, bounds, analyzerOk).Rewritten?
    requires scope.Selection? || scope.Unlisted? ==> bounds.value.0 <= bounds.value.1 <= |s|
    requires scope.Body? || scope.Headers? ==> Contains(s, Separator)
    requires scope.Url? ==> Contains(s, CRLF)
    ensures ReplaceInScope(s, m, e, scope, bounds, analyzerOk).rewrite.text == s
  {
    match scope
    case Selection =>
      AbsentInSlice(s, m.pattern, bounds.value.0, bounds.value.1);
    case Unlisted =>
      AbsentInSlice(s, m.pattern, bounds.value.0, bounds.value.1);
    case Body =>
      BodyAbsent(s, m.pattern);
    case Headers =>
      HeaderBlockAbsent(s, m.pattern);
      HeadersNoMatch(s, m, e);
    case Url =>
      if analyzerOk && |StartLineTokens(s)| >= 3 {
        PathAbsent(s, m.pattern);
        UrlNoMatch(s, m, e);
      }
    case WholeRequest =>
  }

  /**
   * A regular expression that `re.sub` rejects for every text leaves the
   * message as it was, in every scope: `perform_replace` returns its input,
   * and the URL scope falls back to the original. The body and headers
   * scopes still need the separator they rebuild, and a selection must lie
   * inside the message.
   */
  lemma {:induction false} InvalidRegexKeepsMessage(s: string, m: MatchSpec, e: Engine, scope: Scope,
                                                    bounds: Option<(nat, nat)>, analyzerOk: bool)
    requires m.pattern != [] && m.useRegex
    requires forall t :: e.regexSub(m.pattern, m.replacement, t, m.ignoreCase).None?
    requires ReplaceInScope(s, m, e, scope, bounds, analyzerOk).Rewritten?
    requires scope.Selection? || scope.Unlisted? ==> bounds.value.0 <= bounds.value.1 <= |s|
    requires scope.Body? || scope.Headers? ==> Contains(s, Separator)
    ensures ReplaceInScope(s, m, e, scope, bounds, analyzerOk).rewrite.text == s
  {
    match scope
    case Selection =>
      SelectionKept(s, m, e, bounds.value.0, bounds.value.1);
    case Unlisted =>
      SelectionKept(s, m, e, bounds.value.0, bounds.value.1);
    case Body =>
      var h := SplitRequest(s);
      var r := ReplaceInBody(s, m, e);
      assert PerformReplace(h.body, m, e) == h.body;
      assert r.text == r.text[..|h.head| + 4] + r.text[|h.head| + 4..];
    case Headers =>
      var after := AfterFirstLine(SplitRequest(s).head);
      assert PerformReplace(after, m, e) == after;
      HeadersKept(s, m, e);
    case Url =>
      if analyzerOk && |StartLineTokens(s)| >= 3 {
        assert Substitute(StartLineTokens(s)[1], m, e).None?;
      }
    case WholeRequest =>
      assert PerformReplace(s, m, e) == s;
  }

  /** A matcher that gives a selection inside the message back unchanged leaves the message as it was. */
  lemma SelectionKept(s: string, m: MatchSpec, e: Engine, start: nat, end: nat)
    requires m.pattern != [] && start <= end <= |s|
    requires PerformReplace(s[start..end], m, e) == s[start..end]
    ensures ReplaceInSelection(s, m, e, start, end).text == s
  {
    Slices3(s, start, end);
  }

  /** What does not occur in a framed message does not occur in its body. */
  lemma BodyAbsent(s: string, p: string)
    requires p != [] && !Contains(s, p) && Contains(s, Separator)
    ensures !Contains(SplitRequest(s).body, p)
  {
    var h := SplitRequest(s);
    Parts3(h.head, Separator, h.body);
    assert h.body == s[|h.head| + 4..|s|];
    AbsentInSlice(s, p, |h.head| + 4, |s|);
  }

  /** What does not occur in a message does not occur in its header block. */
  lemma HeaderBlockAbsent(s: string, p: string)
    requires p != [] && !Contains(s, p)
    ensures !Contains(AfterFirstLine(SplitRequest(s).head), p)
  {
    var head := SplitRequest(s).head;
    var line := FirstLine(head);
    LineSplice(head);
    HeadIsPrefix(s);
    if Contains(head, CRLF) {
      Parts3(line, CRLF, AfterFirstLine(head));
      assert AfterFirstLine(head) == s[..|head|][|line| + 2..];
      SliceOfSlice(s, 0, |head|, |line| + 2, |head|);
      AbsentInSlice(s, p, |line| + 2, |head|);
    }
  }

  /** What does not occur in a message does not occur in the path of its start-line. */
  lemma PathAbsent(s: string, p: string)
    requires p != [] && !Contains(s, p) && |StartLineTokens(s)| >= 3
    ensures !Contains(StartLineTokens(s)[1], p)
  {
    var t := StartLineTokens(s);
    var tail := UrlOriginalShape(s);
    Parts3(t[0] + " ", t[1], " " + Join(t[2..], " ") + tail);
    AbsentInSlice(s, p, |t[0]| + 1, |t[0]| + 1 + |t[1]|);
  }
}
