/**
 * The local stages between collection and selection (news_bot.py):
 * `simple_rule_filter`, which drops obvious advertisements and job posts,
 * and `remove_duplicate_articles`, which keeps one article per story by
 * title similarity and shared title keywords.
 *
 * `SequenceMatcher(None, a.lower(), b.lower()).ratio() > 0.60` is the
 * function `similar` applied to the two titles.
 */
module NewsFilter {
  import opened Wrappers
  import opened Text
  import Order
  import NewsCollect

  type Candidate = NewsCollect.Candidate

  // ---------------------------------------------------------------------
  // `simple_rule_filter`

  const EXCLUDE_KEYWORDS: seq<string> := ["채용", "인사발령", "이벤트", "프로모션", "광고", "모집"]

  /** `any(kw in title or kw in desc for kw in keys)`. */
  predicate AnyMentioned(keys: seq<string>, title: string, desc: string)
    decreases |keys|
  {
    keys != [] && (NewsCollect.Mentions(title, desc, keys[0]) || AnyMentioned(keys[1..], title, desc))
  }

  lemma {:induction false} AnyMentionedMeaning(keys: seq<string>, title: string, desc: string)
    ensures AnyMentioned(keys, title, desc) <==> exists k :: k in keys && NewsCollect.Mentions(title, desc, k)
    decreases |keys|
  {
    if keys != [] {
      AnyMentionedMeaning(keys[1..], title, desc);
      assert forall k :: k in keys <==> k == keys[0] || k in keys[1..];
    }
  }

  /** Whether the lowered title or description mentions an excluded keyword. */
  predicate Excluded(a: Candidate) {
    AnyMentioned(EXCLUDE_KEYWORDS, AsciiLower(a.title), AsciiLower(a.description))
  }

  predicate Kept(a: Candidate) {
    !Excluded(a)
  }

  /** The filter loop: the articles without excluded keywords, in order. */
  method SimpleRuleFilter(articles: seq<Candidate>) returns (filtered: seq<Candidate>)
    ensures filtered == Order.Filter(articles, Kept)
  {
    if |articles| == 0 {
      return [];
    }
    filtered := [];
    var i := 0;
    while i < |articles|
      invariant 0 <= i <= |articles|
      invariant filtered == Order.Filter(articles[..i], Kept)
    {
      var article := articles[i];
      assert articles[..i + 1][..i] == articles[..i];
      if Excluded(article) {
        i := i + 1;
        continue;
      }
      filtered := filtered + [article];
      i := i + 1;
    }
    assert articles[..i] == articles;
  }

  lemma FilterSnoc(xs: seq<Candidate>, x: Candidate)
    ensures Order.Filter(xs + [x], Kept) == Order.Filter(xs, Kept) + (if Kept(x) then [x] else [])
  {
    assert (xs + [x])[..|xs|] == xs;
  }

  /** Running the filter on its own output changes nothing. */
  lemma FilterIdempotent(articles: seq<Candidate>)
    ensures Order.Filter(Order.Filter(articles, Kept), Kept) == Order.Filter(articles, Kept)
  {
    var f := Order.Filter(articles, Kept);
    Order.FilterMembers(articles, Kept);
    assert forall k :: 0 <= k < |f| ==> f[k] in f;
    Order.FilterAll(f, Kept);
  }

  // ---------------------------------------------------------------------
  // `extract_keywords`

  /** The characters of `[가-힣a-zA-Z0-9]`. */
  predicate IsWordChar(c: char) {
    ('가' <= c <= '힣') || ('a' <= c <= 'z') || ('A' <= c <= 'Z') || ('0' <= c <= '9')
  }

  predicate AllWordChars(s: string) {
    forall k :: 0 <= k < |s| ==> IsWordChar(s[k])
  }

  /** `re.findall(r'[가-힣a-zA-Z0-9]+', s)`: the maximal runs of word
      characters, left to right. */
  function Words(s: string): (ws: seq<string>)
    ensures forall k :: 0 <= k < |ws| ==> ws[k] != [] && AllWordChars(ws[k])
    decreases |s|
  {
    if s == [] then []
    else
      var n := LeadingCount(s, IsWordChar);
      if n == 0 then Words(s[1..]) else [s[..n]] + Words(s[n..])
  }

  /** A separator is skipped, and a run up to a separator is one word: so
      the words are exactly the runs between separators. */
  lemma WordsSkip(c: char, b: string)
    requires !IsWordChar(c)
    ensures Words([c] + b) == Words(b)
  {
    assert ([c] + b)[1..] == b;
  }

  lemma WordsRun(w: string, c: char, b: string)
    requires w != [] && AllWordChars(w) && !IsWordChar(c)
    ensures Words(w + [c] + b) == [w] + Words([c] + b)
  {
    var s := w + [c] + b;
    assert s[|w|] == c;
    RunLength(s, |w|);
    assert s[..|w|] == w;
    assert s[|w|..] == [c] + b;
  }

  lemma WordsWhole(w: string)
    requires w != [] && AllWordChars(w)
    ensures Words(w) == [w]
  {
    RunLength(w, |w|);
    assert w[..|w|] == w;
  }

  /** The run of word characters at the start of `s` has length `n` when
      the first `n` characters are word characters and the next is not. */
  lemma RunLength(s: string, n: nat)
    requires n <= |s| && forall k :: 0 <= k < n ==> IsWordChar(s[k])
    requires n < |s| ==> !IsWordChar(s[n])
    ensures LeadingCount(s, IsWordChar) == n
  {
  }

  /** `extract_keywords`: the lowered words of three or more characters. */
  function ExtractKeywords(title: string): set<string> {
    set w | w in Words(title) && |w| >= 3 :: AsciiLower(w)
  }

  /** Every keyword is a lowered word of the title with three or more
      characters, and every such word gives one. */
  lemma KeywordShape(title: string)
    ensures forall k :: k in ExtractKeywords(title) ==>
      |k| >= 3 && AllWordChars(k) && forall i :: 0 <= i < |k| ==> !('A' <= k[i] <= 'Z')
    ensures forall w :: w in Words(title) && |w| >= 3 ==> AsciiLower(w) in ExtractKeywords(title)
  {
    forall k | k in ExtractKeywords(title)
      ensures |k| >= 3 && AllWordChars(k) && forall i :: 0 <= i < |k| ==> !('A' <= k[i] <= 'Z')
    {
      var w :| w in Words(title) && |w| >= 3 && k == AsciiLower(w);
      var j :| 0 <= j < |Words(title)| && Words(title)[j] == w;
      assert AllWordChars(w);
    }
  }

  /** Case does not matter: a word and its upper-case form give the same
      keyword; short words give none. */
  lemma KeywordExample()
    ensures ExtractKeywords("SKT 유출") == {"skt"}
  {
    ExampleWords();
    ExampleKeywords("SKT 유출");
  }

  lemma ExampleWords()
    ensures Words("SKT 유출") == ["SKT", "유출"]
  {
    WordsRun("SKT", ' ', "유출");
    assert "SKT 유출" == "SKT" + [' '] + "유출";
    WordsSkip(' ', "유출");
    WordsWhole("유출");
  }

  lemma ExampleKeywords(s: string)
    requires Words(s) == ["SKT", "유출"]
    ensures ExtractKeywords(s) == {"skt"}
  {
    assert AsciiLower("SKT") == "skt";
    forall k ensures k in ExtractKeywords(s) <==> k == "skt" {
      if k == "skt" {
        assert "SKT" in Words(s);
      }
    }
  }

  // ---------------------------------------------------------------------
  // `remove_duplicate_articles`

  function Min(a: nat, b: nat): nat {
    if a < b then a else b
  }

  /** `len(common) / min(len(a), len(b)) > 0.50`, with the overlap 0 when
      either set is empty. */
  predicate Overlap(a: set<string>, b: set<string>) {
    a != {} && b != {} && 2 * |a * b| > Min(|a|, |b|)
  }

  /** The overlap test is symmetric, and a non-empty set overlaps every
      superset of it. */
  lemma OverlapFacts(a: set<string>, b: set<string>)
    ensures Overlap(a, b) == Overlap(b, a)
    ensures a != {} && a <= b ==> Overlap(a, b)
  {
    assert a * b == b * a;
    if a != {} && a <= b {
      assert a * b == a;
      SubsetCard(a, b);
    }
  }

  lemma SubsetCard(a: set<string>, b: set<string>)
    requires a <= b
    ensures |a| <= |b|
  {
    assert b == a + (b - a);
  }

  /** Whether `a` duplicates `existing`: similar titles, or more than half
      of the smaller keyword set shared. */
  predicate IsDuplicate(a: Candidate, existing: Candidate, similar: (string, string) -> bool) {
    similar(a.title, existing.title) || Overlap(ExtractKeywords(a.title), ExtractKeywords(existing.title))
  }

  /** The first kept article, from index `i` on, that `a` duplicates. */
  function FirstDuplicate(unique: seq<Candidate>, a: Candidate, similar: (string, string) -> bool, i: nat)
    : (r: Option<nat>)
    requires i <= |unique|
    ensures r.Some? ==> i <= r.value < |unique| && IsDuplicate(a, unique[r.value], similar)
    ensures forall j :: i <= j < |unique| && (r.None? || j < r.value) ==> !IsDuplicate(a, unique[j], similar)
    decreases |unique| - i
  {
    if i == |unique| then None
    else if IsDuplicate(a, unique[i], similar) then Some(i)
    else FirstDuplicate(unique, a, similar, i + 1)
  }

  /** One article of the outer loop: appended when it duplicates no kept
      article; otherwise it replaces the first one it duplicates when its
      title is strictly longer, and is dropped when not. */
  function DedupeStep(unique: seq<Candidate>, a: Candidate, similar: (string, string) -> bool): seq<Candidate> {
    match FirstDuplicate(unique, a, similar, 0)
    case None => unique + [a]
    case Some(i) => if |a.title| > |unique[i].title| then unique[i := a] else unique
  }

  function Dedupe(articles: seq<Candidate>, similar: (string, string) -> bool): seq<Candidate>
    decreases |articles|
  {
    if articles == [] then []
    else DedupeStep(Dedupe(articles[..|articles| - 1], similar), articles[|articles| - 1], similar)
  }

  /** `remove_duplicate_articles`, with the keyword cache kept in step with
      the kept articles. */
  method RemoveDuplicates(articles: seq<Candidate>, similar: (string, string) -> bool)
    returns (unique: seq<Candidate>)
    ensures unique == Dedupe(articles, similar)
  {
    if |articles| == 0 {
      return [];
    }
    unique := [];
    var cache: seq<set<string>> := [];
    var n := 0;
    while n < |articles|
      invariant 0 <= n <= |articles|
      invariant unique == Dedupe(articles[..n], similar)
      invariant |cache| == |unique|
      invariant forall i :: 0 <= i < |unique| ==> cache[i] == ExtractKeywords(unique[i].title)
    {
      var article := articles[n];
      assert articles[..n + 1][..n] == articles[..n];
      unique, cache := Place(unique, cache, article, similar);
      n := n + 1;
    }
    assert articles[..n] == articles;
  }

  /** The inner loop for one article. */
  method Place(unique0: seq<Candidate>, cache0: seq<set<string>>, article: Candidate,
               similar: (string, string) -> bool)
    returns (unique: seq<Candidate>, cache: seq<set<string>>)
    requires |cache0| == |unique0|
    requires forall i :: 0 <= i < |unique0| ==> cache0[i] == ExtractKeywords(unique0[i].title)
    ensures unique == DedupeStep(unique0, article, similar)
    ensures |cache| == |unique|
    ensures forall i :: 0 <= i < |unique| ==> cache[i] == ExtractKeywords(unique[i].title)
  {
    unique, cache := unique0, cache0;
    var title := article.title;
    var isDuplicate := false;
    var current := ExtractKeywords(title);
    var i := 0;
    while i < |unique|
      invariant 0 <= i <= |unique0|
      invariant unique == unique0 && cache == cache0
      invariant FirstDuplicate(unique0, article, similar, 0) == FirstDuplicate(unique0, article, similar, i)
    {
      var existing := unique[i];
      var existingKeywords := cache[i];
      var overlap := if current != {} && existingKeywords != {} then
                       2 * |current * existingKeywords| > Min(|current|, |existingKeywords|)
                     else false;
      if similar(title, existing.title) || overlap {
        isDuplicate := true;
        if |title| > |existing.title| {
          unique := unique[i := article];
          cache := cache[i := current];
        }
        break;
      }
      i := i + 1;
    }
    if !isDuplicate {
      unique := unique + [article];
      cache := cache + [current];
    }
  }

  /** The output is no longer than the input and holds only input
      articles. */
  lemma {:induction false} DedupeFacts(articles: seq<Candidate>, similar: (string, string) -> bool)
    ensures |Dedupe(articles, similar)| <= |articles|
    ensures articles != [] ==> |Dedupe(articles, similar)| >= 1
    ensures forall a :: a in Dedupe(articles, similar) ==> a in articles
    decreases |articles|
  {
    if articles != [] {
      var init := articles[..|articles| - 1];
      DedupeFacts(init, similar);
      var u := Dedupe(init, similar);
      var a := articles[|articles| - 1];
      forall x | x in Dedupe(articles, similar) ensures x in articles {
        if x != a {
          assert x in u;
          assert x in init;
        }
      }
    }
  }

  /** No article duplicates an earlier one. */
  predicate NoLaterDuplicate(articles: seq<Candidate>, similar: (string, string) -> bool) {
    forall i, j :: 0 <= i < j < |articles| ==> !IsDuplicate(articles[j], articles[i], similar)
  }

  /** Articles none of which duplicates an earlier one are all kept, in
      order. */
  lemma {:induction false} NoDuplicatesKept(articles: seq<Candidate>, similar: (string, string) -> bool)
    requires NoLaterDuplicate(articles, similar)
    ensures Dedupe(articles, similar) == articles
    decreases |articles|
  {
    if articles != [] {
      var init := articles[..|articles| - 1];
      var a := articles[|articles| - 1];
      PrefixClear(articles, similar);
      NoDuplicatesKept(init, similar);
      assert articles == init + [a];
      LastClear(init, a, similar);
      NoneFirst(init, a, similar);
      DedupeSnoc(init, a, similar);
    }
  }

  lemma PrefixClear(articles: seq<Candidate>, similar: (string, string) -> bool)
    requires articles != [] && NoLaterDuplicate(articles, similar)
    ensures NoLaterDuplicate(articles[..|articles| - 1], similar)
  {
    var init := articles[..|articles| - 1];
    forall i, j | 0 <= i < j < |init| ensures !IsDuplicate(init[j], init[i], similar) {
      assert init[i] == articles[i] && init[j] == articles[j];
    }
  }

  lemma LastClear(init: seq<Candidate>, a: Candidate, similar: (string, string) -> bool)
    requires NoLaterDuplicate(init + [a], similar)
    ensures forall j :: 0 <= j < |init| ==> !IsDuplicate(a, init[j], similar)
  {
    var s := init + [a];
    forall j | 0 <= j < |init| ensures !IsDuplicate(a, init[j], similar) {
      assert s[j] == init[j] && s[|init|] == a;
    }
  }

  lemma DedupeSnoc(init: seq<Candidate>, a: Candidate, similar: (string, string) -> bool)
    ensures Dedupe(init + [a], similar) == DedupeStep(Dedupe(init, similar), a, similar)
  {
    assert (init + [a])[..|init|] == init;
  }

  lemma NoneFirst(unique: seq<Candidate>, a: Candidate, similar: (string, string) -> bool)
    requires forall j :: 0 <= j < |unique| ==> !IsDuplicate(a, unique[j], similar)
    ensures DedupeStep(unique, a, similar) == unique + [a]
  {
  }
}
