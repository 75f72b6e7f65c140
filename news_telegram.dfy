/**
 * The Telegram digest of news_bot.py (`send_telegram`): every selected
 * article becomes an HTML line, the lines are packed into messages that stay
 * under Telegram's 4096-character limit with a margin of 50, and the
 * messages are sent one after the other until one fails.
 *
 * Lengths are Python lengths, in code points. The HTTP call for each message
 * is the function `accepted` from the message number to whether Telegram
 * answered 200.
 */
module NewsTelegram {
  import opened Wrappers
  import opened Text

  // ---------------------------------------------------------------------
  // Escaping

  /** What one character becomes in `escape_html`. */
  function HtmlChar(c: char): string {
    if c == '&' then "&amp;" else if c == '<' then "&lt;" else if c == '>' then "&gt;" else [c]
  }

  /** What one character becomes in `escape_url`. */
  function UrlChar(c: char): string {
    if c == '"' then "&quot;" else HtmlChar(c)
  }

  /** `escape_html`: `&` first, then `<`, then `>`. */
  function EscapeHtml(text: string): string {
    if text == [] then ""
    else ReplaceAll(ReplaceAll(ReplaceAll(text, "&", "&amp;"), "<", "&lt;"), ">", "&gt;")
  }

  /** `escape_url`: `escape_html`, then `"`. */
  function EscapeUrl(url: string): string {
    if url == [] then "" else ReplaceAll(EscapeHtml(url), "\"", "&quot;")
  }

  /** The single passes. */
  function AmpPass(c: char): string {
    if c == '&' then "&amp;" else [c]
  }

  function LtPass(c: char): string {
    if c == '<' then "&lt;" else [c]
  }

  function GtPass(c: char): string {
    if c == '>' then "&gt;" else [c]
  }

  function QuotPass(c: char): string {
    if c == '"' then "&quot;" else [c]
  }

  /** The first two passes together. */
  function AmpLtChar(c: char): string {
    if c == '&' then "&amp;" else if c == '<' then "&lt;" else [c]
  }

  lemma OneChar(c: char, f: char -> string)
    ensures MapChars([c], f) == f(c)
  {
    assert [c][1..] == [];
  }

  lemma AmpThenLt(c: char)
    ensures AmpLtChar(c) == MapChars(AmpPass(c), LtPass)
  {
    if c == '&' {
      EntityUntouched("&amp;", LtPass, '<');
    } else {
      OneChar(c, LtPass);
    }
  }

  lemma AmpLtThenGt(c: char)
    ensures HtmlChar(c) == MapChars(AmpLtChar(c), GtPass)
  {
    if c == '&' {
      EntityUntouched("&amp;", GtPass, '>');
    } else if c == '<' {
      EntityUntouched("&lt;", GtPass, '>');
    } else {
      OneChar(c, GtPass);
    }
  }

  lemma HtmlThenQuot(c: char)
    ensures UrlChar(c) == MapChars(HtmlChar(c), QuotPass)
  {
    if c == '&' {
      EntityUntouched("&amp;", QuotPass, '"');
    } else if c == '<' {
      EntityUntouched("&lt;", QuotPass, '"');
    } else if c == '>' {
      EntityUntouched("&gt;", QuotPass, '"');
    } else {
      OneChar(c, QuotPass);
    }
  }

  /** The three passes of `escape_html` are one character-by-character
      rewrite: since `&` goes first, no entity it writes is escaped again. */
  lemma EscapeHtmlIsMap(text: string)
    ensures EscapeHtml(text) == MapChars(text, HtmlChar)
  {
    ReplaceCharIsMap(text, '&', "&amp;", AmpPass);
    var s1 := MapChars(text, AmpPass);
    ReplaceCharIsMap(s1, '<', "&lt;", LtPass);
    var s2 := MapChars(s1, LtPass);
    ReplaceCharIsMap(s2, '>', "&gt;", GtPass);
    forall c ensures AmpLtChar(c) == MapChars(AmpPass(c), LtPass) {
      AmpThenLt(c);
    }
    MapCharsCompose(text, AmpPass, LtPass, AmpLtChar);
    forall c ensures HtmlChar(c) == MapChars(AmpLtChar(c), GtPass) {
      AmpLtThenGt(c);
    }
    MapCharsCompose(text, AmpLtChar, GtPass, HtmlChar);
  }

  /** A text without the escaped character goes through a pass unchanged. */
  lemma {:induction false} EntityUntouched(s: string, f: char -> string, c: char)
    requires forall x :: x != c ==> f(x) == [x]
    requires c !in s
    ensures MapChars(s, f) == s
    decreases |s|
  {
    if s != [] {
      EntityUntouched(s[1..], f, c);
      assert s == [s[0]] + s[1..];
    }
  }

  lemma EscapeUrlIsMap(url: string)
    ensures EscapeUrl(url) == MapChars(url, UrlChar)
  {
    if url != [] {
      EscapeHtmlIsMap(url);
      ReplaceCharIsMap(EscapeHtml(url), '"', "&quot;", QuotPass);
      forall c ensures UrlChar(c) == MapChars(HtmlChar(c), QuotPass) {
        HtmlThenQuot(c);
      }
      MapCharsCompose(url, HtmlChar, QuotPass, UrlChar);
    }
  }

  lemma {:induction false} MapAvoids(s: string, f: char -> string, c: char)
    requires forall x :: c !in f(x)
    ensures c !in MapChars(s, f)
    decreases |s|
  {
    if s != [] {
      MapAvoids(s[1..], f, c);
    }
  }

  /** Escaped text holds no `<` or `>`, so it cannot open or close a tag;
      an escaped URL holds no `"` either, so it cannot end the attribute. */
  lemma EscapedIsInert(text: string, url: string)
    ensures '<' !in EscapeHtml(text) && '>' !in EscapeHtml(text)
    ensures '<' !in EscapeUrl(url) && '>' !in EscapeUrl(url) && '"' !in EscapeUrl(url)
  {
    HtmlInert(text);
    UrlInert(url);
  }

  lemma HtmlInert(text: string)
    ensures '<' !in EscapeHtml(text) && '>' !in EscapeHtml(text)
  {
    EscapeHtmlIsMap(text);
    forall x ensures '<' !in HtmlChar(x) && '>' !in HtmlChar(x) {
      HtmlCharInert(x);
    }
    MapAvoids(text, HtmlChar, '<');
    MapAvoids(text, HtmlChar, '>');
  }

  lemma UrlInert(url: string)
    ensures '<' !in EscapeUrl(url) && '>' !in EscapeUrl(url) && '"' !in EscapeUrl(url)
  {
    EscapeUrlIsMap(url);
    forall x ensures '<' !in UrlChar(x) && '>' !in UrlChar(x) && '"' !in UrlChar(x) {
      UrlCharInert(x);
    }
    MapAvoids(url, UrlChar, '<');
    MapAvoids(url, UrlChar, '>');
    MapAvoids(url, UrlChar, '"');
  }

  lemma HtmlCharInert(x: char)
    ensures '<' !in HtmlChar(x) && '>' !in HtmlChar(x)
  {
  }

  lemma UrlCharInert(x: char)
    ensures '<' !in UrlChar(x) && '>' !in UrlChar(x) && '"' !in UrlChar(x)
  {
  }

  /** How Telegram reads the entities back. */
  function Unescape(s: string): string
    decreases |s|
  {
    if s == [] then []
    else if StartsWith(s, "&amp;") then "&" + Unescape(s[5..])
    else if StartsWith(s, "&lt;") then "<" + Unescape(s[4..])
    else if StartsWith(s, "&gt;") then ">" + Unescape(s[4..])
    else if StartsWith(s, "&quot;") then "\"" + Unescape(s[6..])
    else [s[0]] + Unescape(s[1..])
  }

  /** Escaping loses nothing: the reader recovers the original text. */
  lemma {:induction false} UnescapeMap(text: string, f: char -> string)
    requires forall c :: f(c) == HtmlChar(c) || f(c) == UrlChar(c)
    ensures Unescape(MapChars(text, f)) == text
    decreases |text|
  {
    if text != [] {
      var c := text[0];
      UnescapeMap(text[1..], f);
      UnescapeHead(c, f(c), MapChars(text[1..], f));
      assert text == [c] + text[1..];
    }
  }

  lemma UnescapeHead(c: char, e: string, rest: string)
    requires e == HtmlChar(c) || e == UrlChar(c)
    ensures Unescape(e + rest) == [c] + Unescape(rest)
  {
    if c == '&' {
      UnescapeEntity("&amp;", '&', rest);
    } else if c == '<' {
      UnescapeEntity("&lt;", '<', rest);
    } else if c == '>' {
      UnescapeEntity("&gt;", '>', rest);
    } else if e == "&quot;" {
      UnescapeEntity("&quot;", '"', rest);
    } else {
      UnescapePlain(c, rest);
    }
  }

  /** An entity reads back as its character. */
  lemma UnescapeEntity(e: string, c: char, rest: string)
    requires (e, c) == ("&amp;", '&') || (e, c) == ("&lt;", '<') || (e, c) == ("&gt;", '>') || (e, c) == ("&quot;", '"')
    ensures Unescape(e + rest) == [c] + Unescape(rest)
  {
    var t := e + rest;
    assert t[..|e|] == e && t[|e|..] == rest;
    assert StartsWith(t, e);
    assert t[1] == e[1];
    if e != "&amp;" {
      Differs(t, "&amp;", 1);
    }
    if e == "&gt;" || e == "&quot;" {
      Differs(t, "&lt;", 1);
    }
    if e == "&quot;" {
      Differs(t, "&gt;", 1);
    }
  }

  /** A character other than `&` reads back as itself. */
  lemma UnescapePlain(c: char, rest: string)
    requires c != '&'
    ensures Unescape([c] + rest) == [c] + Unescape(rest)
  {
    var t := [c] + rest;
    assert t[0] == c && t[1..] == rest;
    Differs(t, "&amp;", 0);
    Differs(t, "&lt;", 0);
    Differs(t, "&gt;", 0);
    Differs(t, "&quot;", 0);
  }

  /** A text that differs from `p` at position `i` does not start with `p`. */
  lemma Differs(t: string, p: string, i: nat)
    requires i < |t| && i < |p| && t[i] != p[i]
    ensures !StartsWith(t, p)
  {
    if |p| <= |t| {
      assert t[..|p|][i] == t[i];
    }
  }

  lemma EscapeRoundTrip(text: string)
    ensures Unescape(EscapeHtml(text)) == text
    ensures Unescape(EscapeUrl(text)) == text
  {
    EscapeHtmlIsMap(text);
    EscapeUrlIsMap(text);
    UnescapeMap(text, HtmlChar);
    UnescapeMap(text, UrlChar);
  }

  // ---------------------------------------------------------------------
  // The lines

  /** The fields of a selected article, `''` where one is missing;
      `titleOriginal` is None when the key is absent. */
  datatype Item = Item(title: string, url: string, category: string, titleOriginal: Option<string>)

  /** Whether the line shows the original title: an overseas article with a
      non-empty `title_original`. */
  predicate ShowsOriginal(item: Item) {
    Contains(item.category, "[해외]") && item.titleOriginal.Some? && item.titleOriginal.value != []
  }

  /** The line for the `i`-th article, counting from 1. */
  function Line(i: nat, item: Item): string {
    NatToString(i) + ". " + EscapeHtml(item.category) + " <b>" + EscapeHtml(item.title) + "</b>\n"
    + (if ShowsOriginal(item) then "   \U{1F310} <i>" + EscapeHtml(item.titleOriginal.value) + "</i>\n" else "")
    + "   \U{1F517} <a href=\"" + EscapeUrl(item.url) + "\">" + EscapeHtml(item.url) + "</a>\n\n"
  }

  function Lines(items: seq<Item>): (r: seq<string>)
    ensures |r| == |items|
    decreases |items|
  {
    if items == [] then [] else Lines(items[..|items| - 1]) + [Line(|items|, items[|items| - 1])]
  }

  lemma LinesSnoc(items: seq<Item>, item: Item)
    ensures Lines(items + [item]) == Lines(items) + [Line(|items| + 1, item)]
  {
    var s := items + [item];
    assert s[..|s| - 1] == items && s[|s| - 1] == item && |s| == |items| + 1;
    assert Lines(s) == Lines(s[..|s| - 1]) + [Line(|s|, s[|s| - 1])];
  }

  // ---------------------------------------------------------------------
  // Packing into messages

  /** `max_length - 50`. */
  const LIMIT: nat := 4096 - 50
  const CONTINUED: string := "<i>계속...</i>"
  const END: string := "<i>끝.</i>"

  /** The heading of the first message and of the later ones. */
  function Heading(today: string, k: nat): string {
    if k == 0 then "\U{1F6E1}\U{FE0F} <b>" + today + " 보안 브리핑</b>\n\n"
    else "\U{1F6E1}\U{FE0F} <b>" + today + " 보안 브리핑 (계속)</b>\n\n"
  }

  function Concat(parts: seq<string>): string
    decreases |parts|
  {
    if parts == [] then "" else Concat(parts[..|parts| - 1]) + parts[|parts| - 1]
  }

  function Flatten(groups: seq<seq<string>>): seq<string>
    decreases |groups|
  {
    if groups == [] then [] else Flatten(groups[..|groups| - 1]) + groups[|groups| - 1]
  }

  /** The message being built for the last group. */
  function Current(today: string, groups: seq<seq<string>>): string
    requires groups != []
  {
    Heading(today, |groups| - 1) + Concat(groups[|groups| - 1])
  }

  /** The lines of each message: a line opens a new message exactly when it
      would take the current one past the limit. The first message may be
      left with no line when the first line alone is too long. */
  function Pack(today: string, lines: seq<string>): (groups: seq<seq<string>>)
    ensures groups != []
    decreases |lines|
  {
    if lines == [] then [[]]
    else
      var g := Pack(today, lines[..|lines| - 1]);
      var line := lines[|lines| - 1];
      if |Current(today, g)| + |line| > LIMIT then g + [[line]]
      else g[..|g| - 1] + [g[|g| - 1] + [line]]
  }

  /** The messages: each heading and its lines, with `계속...` closing all
      but the last and `끝.` closing the last. */
  function Messages(today: string, groups: seq<seq<string>>): (msgs: seq<string>)
    ensures |msgs| == |groups|
  {
    seq(|groups|, k requires 0 <= k < |groups| =>
      Heading(today, k) + Concat(groups[k]) + (if k == |groups| - 1 then END else CONTINUED))
  }

  /** The messages closed with `계속...` while the last group is still
      being filled. */
  function Closed(today: string, groups: seq<seq<string>>): (msgs: seq<string>)
    requires groups != []
    ensures |msgs| == |groups| - 1
  {
    seq(|groups| - 1, k requires 0 <= k < |groups| - 1 => Heading(today, k) + Concat(groups[k]) + CONTINUED)
  }

  /** The message loop of `send_telegram`. */
  method BuildMessages(today: string, items: seq<Item>) returns (messages: seq<string>)
    ensures messages == Messages(today, Pack(today, Lines(items)))
  {
    messages := [];
    var current := Heading(today, 0);
    var i := 0;
    ghost var groups: seq<seq<string>> := [[]];
    while i < |items|
      invariant 0 <= i <= |items|
      invariant groups == Pack(today, Lines(items[..i]))
      invariant current == Current(today, groups)
      invariant messages == Closed(today, groups)
    {
      var line := Line(i + 1, items[i]);
      NextLine(today, items, i);
      current, messages, groups := AddLine(today, current, messages, groups, line);
      i := i + 1;
    }
    assert items[..i] == items;
    LastMessage(today, groups);
    messages := messages + [current + END];
  }

  /** One line of the loop: close the current message first when the line
      does not fit. */
  method AddLine(today: string, current: string, messages: seq<string>, ghost groups: seq<seq<string>>, line: string)
    returns (current': string, messages': seq<string>, ghost groups': seq<seq<string>>)
    requires groups != [] && current == Current(today, groups) && messages == Closed(today, groups)
    ensures groups' == if |Current(today, groups)| + |line| > LIMIT then groups + [[line]]
                       else groups[..|groups| - 1] + [groups[|groups| - 1] + [line]]
    ensures current' == Current(today, groups') && messages' == Closed(today, groups')
  {
    if |current| + |line| > LIMIT {
      SplitStep(today, groups, line);
      messages' := messages + [current + CONTINUED];
      current' := Heading(today, 1) + line;
      groups' := groups + [[line]];
    } else {
      AppendStep(today, groups, line);
      messages' := messages;
      current' := current + line;
      groups' := groups[..|groups| - 1] + [groups[|groups| - 1] + [line]];
    }
  }

  lemma NextLine(today: string, items: seq<Item>, i: nat)
    requires i < |items|
    ensures var g := Pack(today, Lines(items[..i]));
      var line := Line(i + 1, items[i]);
      Pack(today, Lines(items[..i + 1])) ==
        if |Current(today, g)| + |line| > LIMIT then g + [[line]]
        else g[..|g| - 1] + [g[|g| - 1] + [line]]
  {
    assert items[..i + 1] == items[..i] + [items[i]];
    LinesSnoc(items[..i], items[i]);
    PackSnoc(today, Lines(items[..i]), Line(i + 1, items[i]));
  }

  lemma PackSnoc(today: string, lines: seq<string>, line: string)
    ensures var g := Pack(today, lines);
      Pack(today, lines + [line]) ==
        if |Current(today, g)| + |line| > LIMIT then g + [[line]]
        else g[..|g| - 1] + [g[|g| - 1] + [line]]
  {
    assert (lines + [line])[..|lines|] == lines;
  }

  lemma SplitStep(today: string, g: seq<seq<string>>, line: string)
    requires g != []
    ensures Current(today, g + [[line]]) == Heading(today, 1) + line
    ensures Closed(today, g + [[line]]) == Closed(today, g) + [Current(today, g) + CONTINUED]
  {
    var r := g + [[line]];
    assert r[|r| - 1] == [line];
    assert [line][..0] == [];
    assert Concat([line]) == Concat([]) + line;
    assert Heading(today, |r| - 1) == Heading(today, 1);
    SplitClosed(today, g, line);
  }

  lemma SplitClosed(today: string, g: seq<seq<string>>, line: string)
    requires g != []
    ensures Closed(today, g + [[line]]) == Closed(today, g) + [Current(today, g) + CONTINUED]
  {
    var r := g + [[line]];
    var a := Closed(today, r);
    var b := Closed(today, g) + [Current(today, g) + CONTINUED];
    forall k | 0 <= k < |a| ensures a[k] == b[k] {
      assert r[k] == g[k];
      if k < |g| - 1 {
        assert b[k] == Closed(today, g)[k];
      }
    }
    assert a == b;
  }

  lemma AppendStep(today: string, g: seq<seq<string>>, line: string)
    requires g != []
    ensures var r := g[..|g| - 1] + [g[|g| - 1] + [line]];
      Current(today, r) == Current(today, g) + line && Closed(today, r) == Closed(today, g)
  {
    var last := g[|g| - 1];
    var r := g[..|g| - 1] + [last + [line]];
    assert (last + [line])[..|last|] == last;
    assert Concat(last + [line]) == Concat(last) + line;
    assert forall k :: 0 <= k < |g| - 1 ==> r[k] == g[k];
  }

  lemma LastMessage(today: string, g: seq<seq<string>>)
    requires g != []
    ensures Messages(today, g) == Closed(today, g) + [Current(today, g) + END]
  {
  }

  predicate EndsWith(s: string, suffix: string) {
    |suffix| <= |s| && s[|s| - |suffix|..] == suffix
  }

  /** Every message but the last ends with `계속...`, the last with `끝.`,
      and each starts with its heading. */
  lemma MessageEnds(today: string, g: seq<seq<string>>)
    ensures var msgs := Messages(today, g);
      && (forall k :: 0 <= k < |msgs| ==> StartsWith(msgs[k], Heading(today, k)))
      && (forall k :: 0 <= k < |msgs| - 1 ==> EndsWith(msgs[k], CONTINUED))
      && (msgs != [] ==> EndsWith(msgs[|msgs| - 1], END))
  {
    var msgs := Messages(today, g);
    forall k | 0 <= k < |msgs|
      ensures StartsWith(msgs[k], Heading(today, k))
      ensures EndsWith(msgs[k], if k == |msgs| - 1 then END else CONTINUED)
    {
      var body := Heading(today, k) + Concat(g[k]);
      var tail := if k == |msgs| - 1 then END else CONTINUED;
      assert msgs[k] == body + tail;
      assert msgs[k][..|Heading(today, k)|] == Heading(today, k);
      assert msgs[k][|msgs[k]| - |tail|..] == tail;
    }
  }

  lemma FlattenSnoc(groups: seq<seq<string>>, g: seq<string>)
    ensures Flatten(groups + [g]) == Flatten(groups) + g
  {
    assert (groups + [g])[..|groups|] == groups;
  }

  /** Every line lands in exactly one message, in order. */
  lemma {:induction false} PackKeepsLines(today: string, lines: seq<string>)
    ensures Flatten(Pack(today, lines)) == lines
    decreases |lines|
  {
    if lines != [] {
      var init := lines[..|lines| - 1];
      var line := lines[|lines| - 1];
      var g := Pack(today, init);
      PackKeepsLines(today, init);
      assert lines == init + [line];
      PackSnoc(today, init, line);
      FlattenSnoc(g, [line]);
      FlattenExtendLast(g, line);
    }
  }

  /** Adding a line to the last group adds it at the end of the lines. */
  lemma FlattenExtendLast(g: seq<seq<string>>, line: string)
    requires g != []
    ensures Flatten(g[..|g| - 1] + [g[|g| - 1] + [line]]) == Flatten(g) + [line]
  {
    var front := g[..|g| - 1];
    var last := g[|g| - 1];
    assert Flatten(g) == Flatten(front) + last;
    FlattenSnoc(front, last + [line]);
    calc {
      Flatten(front + [last + [line]]);
      Flatten(front) + (last + [line]);
      (Flatten(front) + last) + [line];
    }
  }

  /** The rule that splits the lines: every line of a message but a first
      one after a split was added while the message stayed within the
      limit, and every later message starts with a line that did not fit
      into the one before. */
  predicate Fits(today: string, groups: seq<seq<string>>) {
    LinesFit(today, groups) && StartsOverflow(today, groups)
  }

  predicate LinesFit(today: string, groups: seq<seq<string>>) {
    forall k, j :: 0 <= k < |groups| && 0 <= j < |groups[k]| && (k == 0 || j > 0) ==>
      |Heading(today, k) + Concat(groups[k][..j])| + |groups[k][j]| <= LIMIT
  }

  predicate StartsOverflow(today: string, groups: seq<seq<string>>) {
    forall k :: 1 <= k < |groups| ==>
      groups[k] != [] && |Heading(today, k - 1) + Concat(groups[k - 1])| + |groups[k][0]| > LIMIT
  }

  lemma {:induction false} PackFits(today: string, lines: seq<string>)
    ensures Fits(today, Pack(today, lines))
    decreases |lines|
  {
    if lines != [] {
      var init := lines[..|lines| - 1];
      var line := lines[|lines| - 1];
      var g := Pack(today, init);
      PackFits(today, init);
      if |Current(today, g)| + |line| > LIMIT {
        SplitFits(today, g, line);
      } else {
        AppendFits(today, g, line);
      }
    }
  }

  lemma SplitFits(today: string, g: seq<seq<string>>, line: string)
    requires g != [] && Fits(today, g)
    requires |Current(today, g)| + |line| > LIMIT
    ensures Fits(today, g + [[line]])
  {
    var n := |g|;
    var r := g + [[line]];
    assert r[n] == [line];
    forall k, j | 0 <= k < |r| && 0 <= j < |r[k]| && (k == 0 || j > 0)
      ensures |Heading(today, k) + Concat(r[k][..j])| + |r[k][j]| <= LIMIT
    {
      assert k < n;
      assert r[k] == g[k];
    }
    SplitFitsStarts(today, g, line);
  }

  lemma SplitFitsStarts(today: string, g: seq<seq<string>>, line: string)
    requires g != [] && StartsOverflow(today, g)
    requires |Current(today, g)| + |line| > LIMIT
    ensures StartsOverflow(today, g + [[line]])
  {
    var n := |g|;
    var r := g + [[line]];
    assert Current(today, g) == Heading(today, n - 1) + Concat(g[n - 1]);
    forall k | 1 <= k < |r|
      ensures r[k] != [] && |Heading(today, k - 1) + Concat(r[k - 1])| + |r[k][0]| > LIMIT
    {
      assert r[k - 1] == g[k - 1];
      if k < n {
        assert r[k] == g[k];
      } else {
        assert r[k] == [line];
      }
    }
  }

  lemma AppendFits(today: string, g: seq<seq<string>>, line: string)
    requires g != [] && Fits(today, g)
    requires |Current(today, g)| + |line| <= LIMIT
    ensures Fits(today, g[..|g| - 1] + [g[|g| - 1] + [line]])
  {
    var n := |g| - 1;
    var last := g[n] + [line];
    var r := g[..n] + [last];
    assert last[..|g[n]|] == g[n];
    forall k, j | 0 <= k < |r| && 0 <= j < |r[k]| && (k == 0 || j > 0)
      ensures |Heading(today, k) + Concat(r[k][..j])| + |r[k][j]| <= LIMIT
    {
      if k < n {
        assert r[k] == g[k];
      } else if j < |g[n]| {
        assert r[k][..j] == g[n][..j];
        assert r[k][j] == g[n][j];
      } else {
        assert r[k][..j] == g[n];
      }
    }
    AppendFitsStarts(today, g, line);
  }

  lemma AppendFitsStarts(today: string, g: seq<seq<string>>, line: string)
    requires g != [] && StartsOverflow(today, g)
    ensures StartsOverflow(today, g[..|g| - 1] + [g[|g| - 1] + [line]])
  {
    var n := |g| - 1;
    var r := g[..n] + [g[n] + [line]];
    forall k | 1 <= k < |r|
      ensures r[k] != [] && |Heading(today, k - 1) + Concat(r[k - 1])| + |r[k][0]| > LIMIT
    {
      assert r[k - 1] == g[k - 1];
      if k < n {
        assert r[k] == g[k];
      } else {
        assert r[k][0] == g[n][0];
      }
    }
  }

  lemma {:induction false} ConcatLength(parts: seq<string>, j: nat)
    requires j < |parts|
    ensures |Concat(parts[..j + 1])| == |Concat(parts[..j])| + |parts[j]|
  {
    assert parts[..j + 1][..j] == parts[..j];
  }

  /** When no line is longer than the room after the longer heading, every
      message stays within Telegram's 4096 characters. */
  lemma WithinTelegramLimit(today: string, items: seq<Item>)
    requires items != []
    requires forall k :: 0 <= k < |items| ==> |Heading(today, 1)| + |Line(k + 1, items[k])| <= LIMIT
    ensures forall m :: m in Messages(today, Pack(today, Lines(items))) ==> |m| <= 4096
  {
    var lines := Lines(items);
    var g := Pack(today, lines);
    var msgs := Messages(today, g);
    PackFits(today, lines);
    PackKeepsLines(today, lines);
    LinesWithin(today, items);
    assert |Heading(today, 1)| <= LIMIT by {
      assert |Heading(today, 1)| + |lines[0]| <= LIMIT;
    }
    forall k | 0 <= k < |msgs| ensures |msgs[k]| <= 4096 {
      GroupWithin(today, g, k, lines);
      MessageLength(today, g, k);
    }
  }

  lemma MessageLength(today: string, g: seq<seq<string>>, k: nat)
    requires k < |g|
    ensures |Messages(today, g)[k]| <= |Heading(today, k) + Concat(g[k])| + 50
  {
    assert |END| <= 50 && |CONTINUED| <= 50;
  }

  /** Each line leaves room for the longer heading, from the same fact
      about the articles. */
  lemma LinesWithin(today: string, items: seq<Item>)
    requires forall k :: 0 <= k < |items| ==> |Heading(today, 1)| + |Line(k + 1, items[k])| <= LIMIT
    ensures forall i :: 0 <= i < |Lines(items)| ==> |Heading(today, 1)| + |Lines(items)[i]| <= LIMIT
  {
    forall i | 0 <= i < |Lines(items)| ensures |Heading(today, 1)| + |Lines(items)[i]| <= LIMIT {
      LineOf(items, i);
    }
  }

  lemma GroupWithin(today: string, g: seq<seq<string>>, k: nat, lines: seq<string>)
    requires k < |g| && Fits(today, g) && Flatten(g) == lines
    requires |Heading(today, 1)| <= LIMIT
    requires forall i :: 0 <= i < |lines| ==> |Heading(today, 1)| + |lines[i]| <= LIMIT
    ensures |Heading(today, k) + Concat(g[k])| <= LIMIT
  {
    var grp := g[k];
    if grp != [] {
      var j := |grp| - 1;
      assert grp[..j + 1] == grp;
      ConcatLength(grp, j);
      if k == 0 || j > 0 {
        assert |Heading(today, k) + Concat(grp[..j])| + |grp[j]| <= LIMIT;
      } else {
        assert grp[..0] == [];
        assert Heading(today, k) == Heading(today, 1);
        InFlatten(g, k, 0);
      }
    }
  }

  lemma {:induction false} InFlatten(g: seq<seq<string>>, k: nat, j: nat)
    requires k < |g| && j < |g[k]|
    ensures g[k][j] in Flatten(g)
    decreases |g|
  {
    var init := g[..|g| - 1];
    if k < |g| - 1 {
      InFlatten(init, k, j);
      assert g[k] == init[k];
    }
  }

  lemma {:induction false} LineOf(items: seq<Item>, i: nat)
    requires i < |items|
    ensures Lines(items)[i] == Line(i + 1, items[i])
    decreases |items|
  {
    var init := items[..|items| - 1];
    var last := Line(|items|, items[|items| - 1]);
    assert Lines(items) == Lines(init) + [last];
    if i < |init| {
      LineOf(init, i);
      assert init[i] == items[i];
      assert Lines(items)[i] == Lines(init)[i];
    } else {
      assert Lines(items)[i] == last;
    }
  }

  // ---------------------------------------------------------------------
  // Sending

  /** `int(chat_id)` after `strip()`: an optional sign and decimal digits
      (Python's digit separators and non-ASCII digits are not modelled). */
  predicate IsIntLiteral(s: string) {
    s != [] && if s[0] == '+' || s[0] == '-' then s[1..] != [] && AllDigits(s[1..]) else AllDigits(s)
  }

  /** The sending loop: stop at the first message Telegram does not accept. */
  method Deliver(messages: seq<string>, accepted: nat -> bool) returns (ok: bool, sent: nat)
    ensures sent <= |messages| && forall k :: 0 <= k < sent ==> accepted(k)
    ensures ok <==> sent == |messages|
    ensures !ok ==> !accepted(sent)
  {
    sent := 0;
    while sent < |messages|
      invariant sent <= |messages| && forall k :: 0 <= k < sent ==> accepted(k)
    {
      if !accepted(sent) {
        return false, sent;
      }
      sent := sent + 1;
    }
    ok := sent == |messages|;
  }

  /** `send_telegram`: False without articles, without a bot token or chat
      id, or with a chat id that is not a number; otherwise the messages are
      built and sent, and the result says whether all were accepted. */
  method SendTelegram(today: string, items: seq<Item>, token: string, chatId: string, accepted: nat -> bool)
    returns (ok: bool, messages: seq<string>, sent: nat)
    ensures items == [] || token == [] || chatId == [] || !IsIntLiteral(PyStrip(chatId)) ==>
      !ok && messages == [] && sent == 0
    ensures items != [] && token != [] && chatId != [] && IsIntLiteral(PyStrip(chatId)) ==>
      && messages == Messages(today, Pack(today, Lines(items)))
      && sent <= |messages| && (forall k :: 0 <= k < sent ==> accepted(k))
      && (ok <==> forall k :: 0 <= k < |messages| ==> accepted(k))
  {
    ok, messages, sent := false, [], 0;
    if items == [] || token == [] || chatId == [] {
      return;
    }
    if !IsIntLiteral(PyStrip(chatId)) {
      return;
    }
    messages := BuildMessages(today, items);
    ok, sent := Deliver(messages, accepted);
  }
}
