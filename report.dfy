/**
 * The analysis report (web/components/AnalysisReport.tsx): paragraphs and
 * list items of the rendered markdown whose children hold text have every
 * article reference `[N]` turned into a badge.
 *
 * The global replacement of `/\[(\d+)\]/g` is modelled as a tokenisation
 * of the text, scanned left to right, into literal characters and
 * references; the replacement renders the references and spells the
 * literals unchanged.
 */
module AnalysisReport {
  import opened Text

  /** The badge markup of a paragraph or list item: the digits go between. */
  const BADGE_OPEN: string := "<span class=\"inline-flex items-center justify-center w-5 h-5 text-xs font-bold bg-blue-100 text-blue-700 rounded mx-0.5\">"
  const BADGE_CLOSE: string := "</span>"
  /** The markup of the whole-document replacement (`processedMarkdown`). */
  const REF_BADGE_OPEN: string := "<span class=\"ref-badge\">"

  // ---------------------------------------------------------------------
  // Matching one reference

  /** `s` starts with a reference of length `n`: `[`, one or more ASCII
      digits, `]`. */
  predicate IsRefAt(s: string, n: int) {
    3 <= n <= |s| && s[0] == '[' && AllDigits(s[1..n - 1]) && s[n - 1] == ']'
  }

  /** The length of the reference at the start of `s`, 0 when there is
      none. A reference at a position is unique, since `]` is no digit. */
  function RefLength(s: string): (n: nat)
    ensures n <= |s|
    ensures forall m :: IsRefAt(s, m) <==> n > 0 && m == n
  {
    if s == [] || s[0] != '[' then 0
    else
      var d := LeadingCount(s[1..], IsDigit);
      RefLengthUnique(s, d);
      if d > 0 && 1 + d < |s| && s[1 + d] == ']' then d + 2 else 0
  }

  lemma RefLengthUnique(s: string, d: nat)
    requires s != [] && s[0] == '['
    requires d <= |s| - 1
    requires forall k :: 0 <= k < d ==> IsDigit(s[1..][k])
    requires d < |s| - 1 ==> !IsDigit(s[1..][d])
    ensures forall m :: IsRefAt(s, m) ==> m == d + 2
    ensures d > 0 && 1 + d < |s| && s[1 + d] == ']' ==> IsRefAt(s, d + 2)
  {
    forall m | IsRefAt(s, m) ensures m == d + 2 {
      assert forall k :: 0 <= k < m - 2 ==> s[1..m - 1][k] == s[1..][k];
    }
    assert forall k :: 0 <= k < d ==> s[1..d + 1][k] == s[1..][k];
  }

  // ---------------------------------------------------------------------
  // Tokens

  datatype Token =
    | Lit(c: char)          // a character the replacement keeps
    | Ref(digits: string)   // a matched `[digits]`

  /** The text a token was read from. */
  function Spell(t: Token): string {
    match t
    case Lit(c) => [c]
    case Ref(digits) => "[" + digits + "]"
  }

  function Source(ts: seq<Token>): string {
    if ts == [] then [] else Spell(ts[0]) + Source(ts[1..])
  }

  /** The scan of the global regular expression: a match at the current
      position is consumed whole, otherwise one character is kept and the
      search resumes at the next one. */
  function Tokenize(s: string): seq<Token>
    decreases |s|
  {
    if s == [] then []
    else
      var n := RefLength(s);
      if n > 0 then [Ref(s[1..n - 1])] + Tokenize(s[n..])
      else [Lit(s[0])] + Tokenize(s[1..])
  }

  /** What characterises the scan: every reference token holds one or more
      digits, and no literal token stands where a reference starts. */
  predicate Canonical(ts: seq<Token>) {
    forall k :: 0 <= k < |ts| ==>
      && (ts[k].Ref? ==> ts[k].digits != [] && AllDigits(ts[k].digits))
      && (ts[k].Lit? ==> RefLength(Source(ts[k..])) == 0)
  }

  lemma SourcePrepend(t: Token, rest: seq<Token>)
    ensures Source([t] + rest) == Spell(t) + Source(rest)
  {
    assert ([t] + rest)[1..] == rest;
  }

  /** A reference of length `n` at the start of `s` splits it. */
  lemma RefSplit(s: string, n: int)
    requires IsRefAt(s, n)
    ensures s == Spell(Ref(s[1..n - 1])) + s[n..]
  {
    assert s == [s[0]] + s[1..n - 1] + [s[n - 1]] + s[n..];
  }

  /** The scan loses nothing: spelling the tokens gives back the text. */
  lemma {:induction false} TokenizeRoundTrip(s: string)
    ensures Source(Tokenize(s)) == s
    decreases |s|
  {
    if s != [] {
      var n := RefLength(s);
      if n > 0 {
        TokenizeRoundTrip(s[n..]);
        SourcePrepend(Ref(s[1..n - 1]), Tokenize(s[n..]));
        RefSplit(s, n);
      } else {
        TokenizeRoundTrip(s[1..]);
        SourcePrepend(Lit(s[0]), Tokenize(s[1..]));
        assert s == [s[0]] + s[1..];
      }
    }
  }

  lemma {:induction false} TokenizeCanonical(s: string)
    ensures Canonical(Tokenize(s))
    decreases |s|
  {
    if s != [] {
      var n := RefLength(s);
      if n > 0 {
        TokenizeCanonical(s[n..]);
        assert IsRefAt(s, n);
        CanonicalCons(Ref(s[1..n - 1]), Tokenize(s[n..]));
      } else {
        TokenizeCanonical(s[1..]);
        TokenizeRoundTrip(s[1..]);
        SourcePrepend(Lit(s[0]), Tokenize(s[1..]));
        assert s == [s[0]] + s[1..];
        CanonicalCons(Lit(s[0]), Tokenize(s[1..]));
      }
    }
  }

  /** A token in front of a canonical reading keeps it canonical when it
      is a well-formed reference, or a literal where no reference starts. */
  lemma CanonicalCons(t: Token, rest: seq<Token>)
    requires Canonical(rest)
    requires t.Ref? ==> t.digits != [] && AllDigits(t.digits)
    requires t.Lit? ==> RefLength(Source([t] + rest)) == 0
    ensures Canonical([t] + rest)
  {
    var ts := [t] + rest;
    assert ts[0..] == ts;
    forall k | 1 <= k < |ts| ensures ts[k..] == rest[k - 1..] {
    }
  }

  /** The scan is the only canonical reading of a text. */
  lemma {:induction false} TokenizeUnique(ts: seq<Token>)
    requires Canonical(ts)
    ensures Tokenize(Source(ts)) == ts
    decreases |ts|
  {
    if ts != [] {
      var rest := ts[1..];
      assert Canonical(rest) by {
        forall k | 0 <= k < |rest| ensures rest[k..] == ts[k + 1..] {
        }
      }
      TokenizeUnique(rest);
      assert ts == [ts[0]] + rest;
      SourcePrepend(ts[0], rest);
      var s := Source(ts);
      match ts[0]
      case Ref(digits) =>
        RefMatch(digits, Source(rest));
      case Lit(c) =>
        assert ts[0..] == ts;
        assert s[1..] == Source(rest);
    }
  }

  /** A reference token spelled before any text is read back whole. */
  lemma RefMatch(digits: string, rest: string)
    requires digits != [] && AllDigits(digits)
    ensures var s := Spell(Ref(digits)) + rest;
      RefLength(s) == |digits| + 2 && s[1..|digits| + 1] == digits && s[|digits| + 2..] == rest
  {
    var s := Spell(Ref(digits)) + rest;
    var n := |digits| + 2;
    assert s[1..n - 1] == digits;
    assert s[n..] == rest;
    assert IsRefAt(s, n);
  }

  /** The rendering of tokens: references become `open digits close`. */
  function Render(ts: seq<Token>, open: string, close: string): string {
    if ts == [] then []
    else
      (match ts[0] case Lit(c) => [c] case Ref(digits) => open + digits + close)
      + Render(ts[1..], open, close)
  }

  /** `text.replace(/\[(\d+)\]/g, open + '$1' + close)`. */
  function ReplaceRefs(s: string, open: string, close: string): string {
    Render(Tokenize(s), open, close)
  }

  /** Rendering with the brackets themselves as the markup is spelling. */
  lemma {:induction false} RenderBrackets(ts: seq<Token>)
    ensures Render(ts, "[", "]") == Source(ts)
  {
    if ts != [] {
      RenderBrackets(ts[1..]);
    }
  }

  /** Replacing every reference by itself changes nothing. */
  lemma ReplaceIdentity(s: string)
    ensures ReplaceRefs(s, "[", "]") == s
  {
    RenderBrackets(Tokenize(s));
    TokenizeRoundTrip(s);
  }

  /** Rendering only literals is spelling them. */
  lemma {:induction false} RenderLiterals(ts: seq<Token>, open: string, close: string)
    requires forall k :: 0 <= k < |ts| ==> ts[k].Lit?
    ensures Render(ts, open, close) == Source(ts)
  {
    if ts != [] {
      RenderLiterals(ts[1..], open, close);
    }
  }

  /** A text without `[` reads as literals only, so it is left as it is. */
  lemma {:induction false} NoBracketNoRefs(s: string)
    requires forall k :: 0 <= k < |s| ==> s[k] != '['
    ensures forall k :: 0 <= k < |Tokenize(s)| ==> Tokenize(s)[k].Lit?
    decreases |s|
  {
    if s != [] {
      NoBracketNoRefs(s[1..]);
      assert Tokenize(s)[1..] == Tokenize(s[1..]);
    }
  }

  lemma WithoutBracketUnchanged(s: string, open: string, close: string)
    requires forall k :: 0 <= k < |s| ==> s[k] != '['
    ensures ReplaceRefs(s, open, close) == s
  {
    NoBracketNoRefs(s);
    RenderLiterals(Tokenize(s), open, close);
    TokenizeRoundTrip(s);
  }

  /** `[12]` becomes one badge. */
  lemma OneReference(open: string, close: string)
    ensures ReplaceRefs("[12]", open, close) == open + "12" + close
  {
    var ts := [Ref("12")];
    assert Source(ts) == "[12]";
    assert Canonical(ts) by {
      assert AllDigits("12");
    }
    TokenizeUnique(ts);
    assert Render(ts, open, close) == open + "12" + close + Render([], open, close);
  }

  /** `[]` is no reference: no digits. */
  lemma EmptyBrackets(open: string, close: string)
    ensures ReplaceRefs("[]", open, close) == "[]"
  {
    var ts := [Lit('['), Lit(']')];
    assert Source(ts[1..]) == "]";
    assert Source(ts) == "[]";
    assert Canonical(ts) by {
      assert ts[1..] == [Lit(']')];
      assert RefLength("]") == 0;
    }
    TokenizeUnique(ts);
    RenderLiterals(ts, open, close);
  }

  /** `[1a]` is no reference: a letter among the digits. */
  lemma NotAllDigits(open: string, close: string)
    ensures ReplaceRefs("[1a]", open, close) == "[1a]"
  {
    assert !IsRefAt("[1a]", 3) && !IsRefAt("[1a]", 4) by {
      assert !IsDigit("[1a]"[1..3][1]);
    }
    assert Tokenize("[1a]") == [Lit('[')] + Tokenize("1a]") by {
      assert RefLength("[1a]") == 0;
      assert "[1a]"[1..] == "1a]";
    }
    WithoutBracketUnchanged("1a]", open, close);
    assert ReplaceRefs("[1a]", open, close) == "[" + ReplaceRefs("1a]", open, close) by {
      assert ([Lit('[')] + Tokenize("1a]"))[1..] == Tokenize("1a]");
    }
  }

  // ---------------------------------------------------------------------
  // Children of a paragraph or list item

  /** The children React passes to a block: text, a number, an array of
      children, or anything else (an element). */
  datatype Node =
    | Str(s: string)
    | Num(n: int)
    | Arr(items: seq<Node>)
    | Element

  /** `childrenToString`: text as it is, a number in decimal, an array as
      the concatenation of its children, anything else as nothing. */
  function ChildrenToString(n: Node): string
    decreases n, 1
  {
    match n
    case Str(s) => s
    case Num(i) => IntToString(i)
    case Arr(items) => JoinChildren(items)
    case Element => ""
  }

  function JoinChildren(items: seq<Node>): string
    decreases items, 0
  {
    if items == [] then "" else ChildrenToString(items[0]) + JoinChildren(items[1..])
  }

  lemma JoinPrepend(x: Node, ys: seq<Node>)
    ensures JoinChildren([x] + ys) == ChildrenToString(x) + JoinChildren(ys)
  {
    assert ([x] + ys)[0] == x;
    assert ([x] + ys)[1..] == ys;
  }

  /** The concatenation distributes over the array. */
  lemma {:induction false} JoinAppend(xs: seq<Node>, ys: seq<Node>)
    ensures JoinChildren(xs + ys) == JoinChildren(xs) + JoinChildren(ys)
    decreases |xs|
  {
    if xs != [] {
      JoinAppend(xs[1..], ys);
      assert xs + ys == [xs[0]] + (xs[1..] + ys);
      JoinPrepend(xs[0], xs[1..] + ys);
      assert xs == [xs[0]] + xs[1..];
      JoinPrepend(xs[0], xs[1..]);
    } else {
      assert xs + ys == ys;
    }
  }

  lemma ArrayConcat(xs: seq<Node>, ys: seq<Node>)
    ensures ChildrenToString(Arr(xs + ys)) == ChildrenToString(Arr(xs)) + ChildrenToString(Arr(ys))
  {
    JoinAppend(xs, ys);
  }

  /** Nesting does not matter, and elements contribute nothing. */
  lemma Flattening(xs: seq<Node>, ys: seq<Node>)
    ensures ChildrenToString(Arr([Arr(xs)] + ys)) == ChildrenToString(Arr(xs + ys))
    ensures ChildrenToString(Arr([Element] + ys)) == ChildrenToString(Arr(ys))
  {
    JoinAppend(xs, ys);
    JoinPrepend(Arr(xs), ys);
    JoinPrepend(Element, ys);
  }

  /** The rewrite condition: the children are text, or an array with a text
      child. */
  predicate ShouldRewrite(children: Node) {
    children.Str? || (children.Arr? && exists k :: 0 <= k < |children.items| && children.items[k].Str?)
  }

  /** How a block renders: as HTML built from its children's text, or with
      its children as they are. */
  datatype Block = Html(html: string) | Plain(children: Node)

  /** The `p` and `li` renderers. */
  function RenderBlock(children: Node): (b: Block)
    ensures b.Html? <==> ShouldRewrite(children)
    ensures b.Plain? ==> b.children == children
  {
    if ShouldRewrite(children) then Html(ReplaceRefs(ChildrenToString(children), BADGE_OPEN, BADGE_CLOSE))
    else Plain(children)
  }

  /** A rewritten block is its text with the badges in: apart from them it
      is the text of the children, unchanged. */
  lemma RewrittenText(children: Node)
    requires ShouldRewrite(children)
    ensures RenderBlock(children).html == ReplaceRefs(ChildrenToString(children), BADGE_OPEN, BADGE_CLOSE)
    ensures Source(Tokenize(ChildrenToString(children))) == ChildrenToString(children)
  {
    TokenizeRoundTrip(ChildrenToString(children));
  }

  /** An element among text children is lost: its text does not reach the
      HTML. */
  lemma MixedChildrenDropElements(a: string, b: string)
    requires forall k :: 0 <= k < |a + b| ==> (a + b)[k] != '['
    ensures RenderBlock(Arr([Str(a), Element, Str(b)])) == Html(a + b)
  {
    var items := [Str(a), Element, Str(b)];
    assert items[0].Str?;
    JoinPrepend(Str(b), []);
    assert items[1..] == [Element] + [Str(b)];
    JoinPrepend(Element, [Str(b)]);
    assert items == [Str(a)] + items[1..];
    JoinPrepend(Str(a), items[1..]);
    assert ChildrenToString(Arr(items)) == a + b;
    WithoutBracketUnchanged(a + b, BADGE_OPEN, BADGE_CLOSE);
  }

  /** Children with no text child are rendered as they are, references
      included. */
  lemma NumbersAloneKept()
    ensures RenderBlock(Arr([Num(1), Element])) == Plain(Arr([Num(1), Element]))
  {
  }

  /** `processedMarkdown`: the whole document with every reference turned
      into a `ref-badge` span. */
  function ProcessedMarkdown(markdown: string): string {
    ReplaceRefs(markdown, REF_BADGE_OPEN, BADGE_CLOSE)
  }
}
