/**
 * Collection of domestic news from the Naver search API (news_bot.py,
 * `search_naver_news`): the items of the six keyword searches are deduplicated
 * by link and filtered by date, then ranked by a keyword score and cut to
 * twenty.
 *
 * The HTTP requests are the function `respond` (a keyword's items, or `None`
 * for a failed request); `strptime`/`strftime` of the publication date is the
 * function `parseDate` (`None` when the date does not parse) and
 * `html.unescape` the function `unescape`.
 */
module NewsCollect {
  import opened Wrappers
  import opened Text
  import Order
  import StableSort

  const NAVER_KEYWORDS: seq<string> := ["AI보안", "정보보호", "해킹", "개인정보유출", "금융보안", "랜섬웨어"]
  const DOMESTIC: string := "[국내]"
  const MAX_CANDIDATES: nat := 20

  /** The fields of a search result the collector reads; `None` is a
      missing key. */
  datatype NaverItem = NaverItem(
    title: Option<string>,
    description: Option<string>,
    originallink: Option<string>,
    link: Option<string>,
    pubDate: Option<string>)

  /** A collected article, the dictionary the pipeline passes on. */
  datatype Candidate = Candidate(
    category: string,
    title: string,
    url: string,
    publishedDate: string,
    description: string)

  /** The run's dates (KST) and the library functions the collector uses. */
  datatype Env = Env(
    today: string,
    yesterday: string,
    parseDate: string -> Option<string>,
    unescape: string -> string)

  /** `item.get(key, '')`. */
  function Field(v: Option<string>): string {
    if v.Some? then v.value else ""
  }

  /** `item.get('originallink') or item.get('link', '')`. */
  function LinkOf(item: NaverItem): (r: string)
    ensures item.originallink.Some? && item.originallink.value != [] ==> r == item.originallink.value
    ensures !(item.originallink.Some? && item.originallink.value != []) ==> r == Field(item.link)
  {
    if item.originallink.Some? && item.originallink.value != [] then item.originallink.value
    else Field(item.link)
  }

  /** The publication date an item is filed under, `None` when the item is
      skipped for being older than yesterday. A missing, empty or
      unparsable date counts as today. */
  function PublishedDate(pubDate: Option<string>, env: Env): (r: Option<string>)
    ensures r.Some? ==> r.value == env.today || !Order.Less(r.value, env.yesterday)
    ensures pubDate.None? || pubDate.value == [] || env.parseDate(pubDate.value).None? ==> r == Some(env.today)
    ensures pubDate.Some? && pubDate.value != [] && env.parseDate(pubDate.value).Some? && r.Some? ==>
      r.value == env.parseDate(pubDate.value).value
    ensures r.None? <==>
      pubDate.Some? && pubDate.value != [] && env.parseDate(pubDate.value).Some?
      && Order.Less(env.parseDate(pubDate.value).value, env.yesterday)
  {
    if pubDate.None? || pubDate.value == [] then Some(env.today)
    else
      match env.parseDate(pubDate.value)
      case None => Some(env.today)
      case Some(d) => if Order.Less(d, env.yesterday) then None else Some(d)
  }

  // ---------------------------------------------------------------------
  // `re.sub('<.+?>', '', s)`

  /** The end of the tag match that starts at `s[0] == '<'`, searching for
      the closing `>` from index `j`: the shortest match of one or more
      characters other than a newline followed by `>`; 0 when there is none. */
  function CloseFrom(s: string, j: nat): (n: nat)
    requires 2 <= j <= |s| && s[0] == '<' && s[1] != '\n'
    requires forall k :: 1 <= k < j - 1 ==> s[k] != '\n'
    requires forall k :: 2 <= k < j ==> s[k] != '>'
    ensures n == 0 || (j < n <= |s| && s[n - 1] == '>')
    ensures n > 0 ==> forall k :: 1 <= k < n - 1 ==> s[k] != '\n'
    ensures n > 0 ==> forall k :: 2 <= k < n - 1 ==> s[k] != '>'
    decreases |s| - j
  {
    if j >= |s| then 0
    else if s[j - 1] == '\n' then 0
    else if s[j] == '>' then j + 1
    else CloseFrom(s, j + 1)
  }

  /** The length of the tag at the start of `s`, 0 when none starts there. */
  function TagLength(s: string): (n: nat)
    ensures n == 0 || (3 <= n <= |s| && s[0] == '<' && s[n - 1] == '>'
                       && forall k :: 1 <= k < n - 1 ==> s[k] != '\n')
  {
    if |s| < 2 || s[0] != '<' || s[1] == '\n' then 0 else CloseFrom(s, 2)
  }

  /** Tag removal, scanning left to right like the regular expression. */
  function StripTags(s: string): (r: string)
    ensures |r| <= |s|
    decreases |s|
  {
    if s == [] then []
    else
      var n := TagLength(s);
      if n > 0 then StripTags(s[n..]) else [s[0]] + StripTags(s[1..])
  }

  /** Text without `<` has no tag to remove. */
  lemma {:induction false} StripWithoutTags(s: string)
    requires forall k :: 0 <= k < |s| ==> s[k] != '<'
    ensures StripTags(s) == s
    decreases |s|
  {
    if s != [] {
      StripWithoutTags(s[1..]);
    }
  }

  /** A tag is removed as a whole, and a lone `<` is kept. */
  lemma StripExamples()
    ensures StripTags("<b>x</b>") == "x"
    ensures StripTags("a<b") == "a<b"
  {
    assert TagLength("<b>x</b>") == 3;
    assert "<b>x</b>"[3..] == "x</b>";
    assert TagLength("x</b>") == 0;
    assert "x</b>"[1..] == "</b>";
    assert TagLength("</b>") == 4 by {
      assert CloseFrom("</b>", 2) == CloseFrom("</b>", 3);
    }
    assert "</b>"[4..] == [];
    assert TagLength("a<b") == 0;
    assert "a<b"[1..] == "<b";
    assert TagLength("<b") == 0;
    assert "<b"[1..] == "b";
    StripWithoutTags("b");
  }

  /** The cleaned title or description: tags removed, entities decoded. */
  function Clean(v: Option<string>, env: Env): string {
    env.unescape(StripTags(Field(v)))
  }

  // ---------------------------------------------------------------------
  // Collection: `all_collected`, keyed by link, in insertion order

  predicate HasUrl(acc: seq<Candidate>, u: string) {
    exists k :: 0 <= k < |acc| && acc[k].url == u
  }

  /** An item that passes the date filter and has a link. */
  predicate Admissible(item: NaverItem, env: Env) {
    PublishedDate(item.pubDate, env).Some? && LinkOf(item) != []
  }

  /** The candidate made from an admissible item. */
  function MakeCandidate(item: NaverItem, env: Env): Candidate
    requires Admissible(item, env)
  {
    Candidate(DOMESTIC, Clean(item.title, env), LinkOf(item),
              PublishedDate(item.pubDate, env).value, Clean(item.description, env))
  }

  /** One item of the loop: skipped when too old, when it has no link or when
      its link is already collected. */
  function Admit(acc: seq<Candidate>, item: NaverItem, env: Env): seq<Candidate> {
    if Admissible(item, env) && !HasUrl(acc, LinkOf(item)) then acc + [MakeCandidate(item, env)]
    else acc
  }

  /** The collected candidates after `items`, in the order of the loop. */
  function Collect(items: seq<NaverItem>, env: Env): seq<Candidate>
    decreases |items|
  {
    if items == [] then []
    else Admit(Collect(items[..|items| - 1], env), items[|items| - 1], env)
  }

  /** The items of the searches for `keywords`, in search order. */
  function AllItems(keywords: seq<string>, respond: string -> Option<seq<NaverItem>>): seq<NaverItem>
    decreases |keywords|
  {
    if keywords == [] then []
    else
      var r := respond(keywords[|keywords| - 1]);
      AllItems(keywords[..|keywords| - 1], respond) + (if r.Some? then r.value else [])
  }

  /** `items[k]` is the first admissible item with its link. */
  predicate FirstWithLink(items: seq<NaverItem>, k: int, env: Env)
    requires 0 <= k < |items|
  {
    Admissible(items[k], env)
    && forall j :: 0 <= j < k ==> !(Admissible(items[j], env) && LinkOf(items[j]) == LinkOf(items[k]))
  }

  /** What the collection keeps: one candidate per link, the links exactly
      those of the admissible items, each made from the first admissible
      item with that link. */
  lemma CollectFacts(items: seq<NaverItem>, env: Env)
    ensures var r := Collect(items, env);
      && (forall i, j :: 0 <= i < j < |r| ==> r[i].url != r[j].url)
      && (forall c :: c in r ==> c.url != [] && c.category == DOMESTIC)
      && (forall u :: HasUrl(r, u) <==>
            exists k :: 0 <= k < |items| && Admissible(items[k], env) && LinkOf(items[k]) == u)
      && (forall k :: 0 <= k < |items| && FirstWithLink(items, k, env) ==> MakeCandidate(items[k], env) in r)
  {
    CollectDistinct(items, env);
    CollectUrls(items, env);
    CollectFirst(items, env);
  }

  lemma {:induction false} CollectDistinct(items: seq<NaverItem>, env: Env)
    ensures var r := Collect(items, env);
      && (forall i, j :: 0 <= i < j < |r| ==> r[i].url != r[j].url)
      && (forall c :: c in r ==> c.url != [] && c.category == DOMESTIC)
    decreases |items|
  {
    if items != [] {
      CollectDistinct(items[..|items| - 1], env);
    }
  }

  /** One step keeps the links collected so far and adds the item's link
      when it is admissible. */
  lemma AdmitUrls(acc: seq<Candidate>, item: NaverItem, env: Env, u: string)
    ensures HasUrl(Admit(acc, item, env), u) <==> HasUrl(acc, u) || (Admissible(item, env) && LinkOf(item) == u)
  {
    var r := Admit(acc, item, env);
    if Admissible(item, env) && !HasUrl(acc, LinkOf(item)) {
      assert r[|acc|].url == LinkOf(item);
      if HasUrl(acc, u) {
        var i :| 0 <= i < |acc| && acc[i].url == u;
        assert r[i] == acc[i];
      }
      if HasUrl(r, u) {
        var i :| 0 <= i < |r| && r[i].url == u;
        if i < |acc| {
          assert acc[i] == r[i];
        }
      }
    }
  }

  lemma {:induction false} CollectUrls(items: seq<NaverItem>, env: Env)
    ensures forall u :: HasUrl(Collect(items, env), u) <==>
      exists k :: 0 <= k < |items| && Admissible(items[k], env) && LinkOf(items[k]) == u
    decreases |items|
  {
    if items != [] {
      var init := items[..|items| - 1];
      var last := items[|items| - 1];
      CollectUrls(init, env);
      var acc := Collect(init, env);
      assert Collect(items, env) == Admit(acc, last, env);
      forall u ensures HasUrl(Collect(items, env), u) <==>
        exists k :: 0 <= k < |items| && Admissible(items[k], env) && LinkOf(items[k]) == u
      {
        AdmitUrls(acc, last, env, u);
        if exists k :: 0 <= k < |items| && Admissible(items[k], env) && LinkOf(items[k]) == u {
          var k :| 0 <= k < |items| && Admissible(items[k], env) && LinkOf(items[k]) == u;
          if k < |init| {
            assert init[k] == items[k];
          }
        }
        if HasUrl(acc, u) {
          var k :| 0 <= k < |init| && Admissible(init[k], env) && LinkOf(init[k]) == u;
          assert items[k] == init[k];
        }
      }
    }
  }

  lemma {:induction false} CollectFirst(items: seq<NaverItem>, env: Env)
    ensures forall k :: 0 <= k < |items| && FirstWithLink(items, k, env) ==>
      MakeCandidate(items[k], env) in Collect(items, env)
    decreases |items|
  {
    if items != [] {
      var init := items[..|items| - 1];
      var last := items[|items| - 1];
      CollectFirst(init, env);
      var acc := Collect(init, env);
      var r := Collect(items, env);
      assert r == Admit(acc, last, env);
      AdmitKeeps(acc, last, env);
      forall k | 0 <= k < |items| && FirstWithLink(items, k, env) ensures MakeCandidate(items[k], env) in r {
        if k < |init| {
          FirstWithLinkInit(items, k, env);
        } else {
          LastFirstIsNew(items, env);
        }
      }
    }
  }

  lemma FirstWithLinkInit(items: seq<NaverItem>, k: nat, env: Env)
    requires k < |items| - 1 && FirstWithLink(items, k, env)
    ensures items[..|items| - 1][k] == items[k] && FirstWithLink(items[..|items| - 1], k, env)
  {
  }

  /** The last item, when first with its link, brings a new link. */
  lemma LastFirstIsNew(items: seq<NaverItem>, env: Env)
    requires items != [] && FirstWithLink(items, |items| - 1, env)
    ensures !HasUrl(Collect(items[..|items| - 1], env), LinkOf(items[|items| - 1]))
  {
    var init := items[..|items| - 1];
    CollectUrls(init, env);
    forall k | 0 <= k < |init| ensures !(Admissible(init[k], env) && LinkOf(init[k]) == LinkOf(items[|items| - 1])) {
      assert init[k] == items[k];
    }
  }

  /** One step keeps what is collected and adds an admissible item whose
      link is new. */
  lemma AdmitKeeps(acc: seq<Candidate>, item: NaverItem, env: Env)
    ensures forall c :: c in acc ==> c in Admit(acc, item, env)
    ensures Admissible(item, env) && !HasUrl(acc, LinkOf(item)) ==> MakeCandidate(item, env) in Admit(acc, item, env)
  {
  }

  // ---------------------------------------------------------------------
  // The priority score

  const HIGH_PRIORITY: seq<string> := ["ai보안", "해킹", "유출", "랜섬웨어", "사이버공격", "보안사고", "침해"]
  const MID_PRIORITY: seq<string> := ["금융보안원", "금감원", "규제", "보안기술", "제로데이", "취약점"]
  const SHINHAN: string := "신한"

  /** The keywords found in the title or the description. */
  predicate Mentions(title: string, desc: string, k: string) {
    Contains(title, k) || Contains(desc, k)
  }

  /** `sum(1 for k in keys if k in title or k in desc)`. */
  function Hits(keys: seq<string>, title: string, desc: string): (n: nat)
    ensures n <= |keys|
    decreases |keys|
  {
    if keys == [] then 0
    else (if Mentions(title, desc, keys[0]) then 1 else 0) + Hits(keys[1..], title, desc)
  }

  /** Without repeated keywords, the hits are the number of distinct
      keywords mentioned. */
  lemma {:induction false} HitsCountsKeywords(keys: seq<string>, title: string, desc: string)
    requires Order.NoDuplicates(keys)
    ensures Hits(keys, title, desc) == |set k | k in keys && Mentions(title, desc, k)|
    decreases |keys|
  {
    if keys != [] {
      var rest := keys[1..];
      assert Order.NoDuplicates(rest) by {
        forall i, j | 0 <= i < j < |rest| ensures rest[i] != rest[j] {
          assert rest[i] == keys[i + 1] && rest[j] == keys[j + 1];
        }
      }
      HitsCountsKeywords(rest, title, desc);
      var all := set k | k in keys && Mentions(title, desc, k);
      var tail := set k | k in rest && Mentions(title, desc, k);
      assert keys[0] !in rest;
      if Mentions(title, desc, keys[0]) {
        assert all == tail + {keys[0]};
      } else {
        assert all == tail;
      }
    }
  }

  /** `calculate_priority_score`. */
  function Score(c: Candidate, today: string): int {
    var title := AsciiLower(c.title);
    var desc := AsciiLower(c.description);
    10 * Hits(HIGH_PRIORITY, title, desc)
    + 5 * Hits(MID_PRIORITY, title, desc)
    + (if Mentions(title, desc, SHINHAN) then 3 else 0)
    + (if c.publishedDate == today then 2 else 0)
  }

  /** The score is ten per high-priority keyword and five per mid-priority
      keyword mentioned, three for Shinhan and two for today's articles, so
      it lies between 0 and 105. */
  lemma ScoreMeaning(c: Candidate, today: string)
    ensures var title := AsciiLower(c.title);
      var desc := AsciiLower(c.description);
      Score(c, today) ==
        10 * |set k | k in HIGH_PRIORITY && Mentions(title, desc, k)|
        + 5 * |set k | k in MID_PRIORITY && Mentions(title, desc, k)|
        + (if Mentions(title, desc, SHINHAN) then 3 else 0)
        + (if c.publishedDate == today then 2 else 0)
    ensures 0 <= Score(c, today) <= 105
  {
    var title := AsciiLower(c.title);
    var desc := AsciiLower(c.description);
    KeywordsDistinct();
    HitsCountsKeywords(HIGH_PRIORITY, title, desc);
    HitsCountsKeywords(MID_PRIORITY, title, desc);
  }

  lemma KeywordsDistinct()
    ensures Order.NoDuplicates(HIGH_PRIORITY) && Order.NoDuplicates(MID_PRIORITY)
  {
  }

  // ---------------------------------------------------------------------
  // Ranking: `final_list.sort(key=score, reverse=True)`, then `[:20]`

  /** A higher score comes first. */
  function HigherScore(today: string): (Candidate, Candidate) -> bool {
    (a: Candidate, b: Candidate) => Score(a, today) > Score(b, today)
  }

  function Rank(list: seq<Candidate>, today: string): seq<Candidate> {
    StableSort.Top(list, HigherScore(today), MAX_CANDIDATES)
  }

  /** The ranking keeps at most twenty of the candidates, by non-increasing
      score; every candidate left out scores no higher than any kept one,
      and candidates of equal score keep their collection order. */
  lemma RankFacts(list: seq<Candidate>, today: string)
    ensures var r := Rank(list, today);
      && |r| == (if |list| > MAX_CANDIDATES then MAX_CANDIDATES else |list|)
      && (forall c :: c in r ==> c in list)
      && (forall i, j :: 0 <= i < j < |r| ==> Score(r[i], today) >= Score(r[j], today))
      && (forall x, y :: x in list && x !in r && y in r ==> Score(x, today) <= Score(y, today))
    ensures forall x :: StableSort.TiedWith(StableSort.Sort(list, HigherScore(today)), HigherScore(today), x)
                     == StableSort.TiedWith(list, HigherScore(today), x)
  {
    RankScores(list, today);
    var before := HigherScore(today);
    HigherScoreOrder(today);
    forall x ensures StableSort.TiedWith(StableSort.Sort(list, before), before, x) == StableSort.TiedWith(list, before, x) {
      StableSort.SortStable(list, before, x);
    }
  }

  lemma RankScores(list: seq<Candidate>, today: string)
    ensures var r := Rank(list, today);
      && |r| == (if |list| > MAX_CANDIDATES then MAX_CANDIDATES else |list|)
      && (forall c :: c in r ==> c in list)
      && (forall i, j :: 0 <= i < j < |r| ==> Score(r[i], today) >= Score(r[j], today))
      && (forall x, y :: x in list && x !in r && y in r ==> Score(x, today) <= Score(y, today))
  {
    HigherScoreOrder(today);
    StableSort.TopOf(list, HigherScore(today), MAX_CANDIDATES);
    RankOrder(list, today);
    RankCut(list, today);
  }

  lemma RankOrder(list: seq<Candidate>, today: string)
    requires StableSort.Sorted(Rank(list, today), HigherScore(today))
    ensures var r := Rank(list, today);
      forall i, j :: 0 <= i < j < |r| ==> Score(r[i], today) >= Score(r[j], today)
  {
    var r := Rank(list, today);
    forall i, j | 0 <= i < j < |r| ensures Score(r[i], today) >= Score(r[j], today) {
      assert !HigherScore(today)(r[j], r[i]);
    }
  }

  lemma RankCut(list: seq<Candidate>, today: string)
    requires var r := Rank(list, today);
      forall x, y :: x in list && x !in r && y in r ==> !HigherScore(today)(x, y)
    ensures var r := Rank(list, today);
      forall x, y :: x in list && x !in r && y in r ==> Score(x, today) <= Score(y, today)
  {
    var r := Rank(list, today);
    forall x, y | x in list && x !in r && y in r ensures Score(x, today) <= Score(y, today) {
      assert !HigherScore(today)(x, y);
    }
  }

  lemma HigherScoreOrder(today: string)
    ensures StableSort.StrictWeakOrder(HigherScore(today))
  {
    StableSort.HigherFirst(HigherScore(today), c => Score(c, today));
  }

  // ---------------------------------------------------------------------
  // `search_naver_news`

  /** The six searches, the collection loop and the ranking. Without API
      keys nothing is searched. */
  method SearchNaver(hasKeys: bool, env: Env, respond: string -> Option<seq<NaverItem>>)
    returns (list: seq<Candidate>)
    ensures !hasKeys ==> list == []
    ensures hasKeys ==> list == Rank(Collect(AllItems(NAVER_KEYWORDS, respond), env), env.today)
  {
    if !hasKeys {
      return [];
    }
    var collected: seq<Candidate> := [];
    var q := 0;
    while q < |NAVER_KEYWORDS|
      invariant 0 <= q <= |NAVER_KEYWORDS|
      invariant collected == Collect(AllItems(NAVER_KEYWORDS[..q], respond), env)
    {
      var res := respond(NAVER_KEYWORDS[q]);
      var items := if res.Some? then res.value else [];
      collected := CollectItems(collected, AllItems(NAVER_KEYWORDS[..q], respond), items, env);
      AllItemsSnoc(NAVER_KEYWORDS, q, respond);
      q := q + 1;
    }
    assert NAVER_KEYWORDS[..q] == NAVER_KEYWORDS;
    var sorted := StableSort.Sort(collected, HigherScore(env.today));
    if |sorted| > MAX_CANDIDATES {
      sorted := sorted[..MAX_CANDIDATES];
    }
    list := sorted;
  }

  lemma AllItemsSnoc(keywords: seq<string>, q: nat, respond: string -> Option<seq<NaverItem>>)
    requires q < |keywords|
    ensures var r := respond(keywords[q]);
      AllItems(keywords[..q + 1], respond) == AllItems(keywords[..q], respond) + (if r.Some? then r.value else [])
  {
    assert keywords[..q + 1][..q] == keywords[..q];
  }

  /** The inner loop over one search's items. */
  method CollectItems(collected: seq<Candidate>, done: seq<NaverItem>, items: seq<NaverItem>, env: Env)
    returns (r: seq<Candidate>)
    requires collected == Collect(done, env)
    ensures r == Collect(done + items, env)
  {
    r := collected;
    var j := 0;
    assert done + items[..0] == done;
    while j < |items|
      invariant 0 <= j <= |items|
      invariant r == Collect(done + items[..j], env)
    {
      r := AdmitItem(r, items[j], env);
      assert done + items[..j + 1] == (done + items[..j]) + [items[j]];
      CollectSnoc(done + items[..j], items[j], env);
      j := j + 1;
    }
    assert items[..j] == items;
  }

  lemma CollectSnoc(xs: seq<NaverItem>, x: NaverItem, env: Env)
    ensures Collect(xs + [x], env) == Admit(Collect(xs, env), x, env)
  {
    assert (xs + [x])[..|xs|] == xs;
  }

  /** One iteration of the inner loop: the date check, then the link check,
      then the dictionary insert. */
  method AdmitItem(collected: seq<Candidate>, item: NaverItem, env: Env) returns (r: seq<Candidate>)
    ensures r == Admit(collected, item, env)
  {
    var date := PublishedDate(item.pubDate, env);
    if date.None? {
      return collected;
    }
    var link := LinkOf(item);
    if link == [] || HasUrl(collected, link) {
      return collected;
    }
    r := collected + [MakeCandidate(item, env)];
  }
}
