/**
 * The read side of the archive (web/lib/db.ts): queries over a snapshot of
 * `news.db` and the grouping of the dates by month.
 *
 * A snapshot is `None` when the database file does not exist; every query
 * then returns no rows.
 */
module ArchiveDb {
  import opened Wrappers
  import opened Types
  import opened Order
  import Text
  import StableSort

  /** The two tables the site reads. */
  datatype Snapshot = Snapshot(articles: seq<Article>, briefings: seq<DailyBriefing>)

  /** The `date` column of every article row. */
  function Dates(articles: seq<Article>): (r: seq<string>)
    ensures |r| == |articles|
    ensures forall k :: 0 <= k < |r| ==> r[k] == articles[k].date
  {
    seq(|articles|, k requires 0 <= k < |articles| => articles[k].date)
  }

  /** Whether some article row has the date `d`. */
  predicate HasDate(articles: seq<Article>, d: string) {
    d in Dates(articles)
  }

  /** `queryOne`: the first row, or null. */
  function QueryOne<T>(rows: seq<T>): (r: Option<T>)
    ensures r.None? <==> rows == []
    ensures r.Some? ==> r.value in rows && r.value == rows[0]
  {
    if |rows| > 0 then Some(rows[0]) else None
  }

  /** `SELECT DISTINCT date … ORDER BY date DESC` over some dates. */
  function DescendingDistinct(dates: seq<string>): (r: seq<string>)
    ensures StrictlyDescending(r)
    ensures forall x :: x in r <==> x in dates
  {
    SortedDescending(Distinct(dates));
    Reverse(SortAsc(Distinct(dates)))
  }

  /** `SELECT … GROUP BY date ORDER BY date ASC` over some dates. */
  function AscendingDistinct(dates: seq<string>): (r: seq<string>)
    ensures StrictlyAscending(r)
    ensures forall x :: x in r <==> x in dates
  {
    var d := Distinct(dates);
    var r := SortAsc(d);
    PermutationKeepsNoDuplicates(d, r);
    Order.AscendingDistinct(r);
    forall x ensures x in r <==> x in d {
      assert x in r <==> x in multiset(r);
      assert x in d <==> x in multiset(d);
    }
    r
  }

  /** `getAllDates`. */
  function AllDates(db: Option<Snapshot>): (r: seq<string>)
    ensures StrictlyDescending(r)
    ensures forall x :: x in r <==> db.Some? && HasDate(db.value.articles, x)
  {
    if db.None? then [] else DescendingDistinct(Dates(db.value.articles))
  }

  /** `getLatestDate`: the greatest article date, and null exactly when
      there is no file or no article. */
  function LatestDate(db: Option<Snapshot>): (r: Option<string>)
    ensures r.None? <==> db.None? || db.value.articles == []
    ensures r.Some? ==>
      && HasDate(db.value.articles, r.value)
      && forall x :: HasDate(db.value.articles, x) ==> x == r.value || Less(x, r.value)
  {
    FirstIsGreatest(db);
    QueryOne(AllDates(db))
  }

  /** The first of the descending dates is the greatest article date. */
  lemma FirstIsGreatest(db: Option<Snapshot>)
    ensures AllDates(db) == [] <==> db.None? || db.value.articles == []
    ensures AllDates(db) != [] ==>
      && HasDate(db.value.articles, AllDates(db)[0])
      && forall x :: HasDate(db.value.articles, x) ==> x == AllDates(db)[0] || Less(x, AllDates(db)[0])
  {
    var all := AllDates(db);
    if db.Some? && db.value.articles != [] {
      assert HasDate(db.value.articles, db.value.articles[0].date);
      assert all != [];
      forall x | HasDate(db.value.articles, x) ensures x == all[0] || Less(x, all[0]) {
        var k :| 0 <= k < |all| && all[k] == x;
      }
    }
  }

  /** The article dates strictly before `date`: `WHERE date < ?`. */
  function DatesBefore(articles: seq<Article>, date: string): (r: seq<string>)
    ensures forall x :: x in r <==> HasDate(articles, x) && Less(x, date)
  {
    FilterMembers(Dates(articles), x => Less(x, date));
    Filter(Dates(articles), x => Less(x, date))
  }

  /** The article dates strictly after `date`: `WHERE date > ?`. */
  function DatesAfter(articles: seq<Article>, date: string): (r: seq<string>)
    ensures forall x :: x in r <==> HasDate(articles, x) && Less(date, x)
  {
    FilterMembers(Dates(articles), x => Less(date, x));
    Filter(Dates(articles), x => Less(date, x))
  }

  /** `SELECT date FROM articles WHERE date < ? GROUP BY date ORDER BY date
      DESC LIMIT 1`. */
  function PrevDate(articles: seq<Article>, date: string): (r: Option<string>)
  {
    QueryOne(DescendingDistinct(DatesBefore(articles, date)))
  }

  /** `SELECT date FROM articles WHERE date > ? GROUP BY date ORDER BY date
      ASC LIMIT 1`. */
  function NextDate(articles: seq<Article>, date: string): (r: Option<string>)
  {
    QueryOne(AscendingDistinct(DatesAfter(articles, date)))
  }

  /** `p` is the greatest article date strictly before `date`, and none
      exactly when no article date is before it. */
  ghost predicate IsPrevDate(articles: seq<Article>, date: string, p: Option<string>) {
    && (p.None? <==> forall x :: HasDate(articles, x) ==> !Less(x, date))
    && (p.Some? ==>
          && HasDate(articles, p.value) && Less(p.value, date)
          && forall x :: HasDate(articles, x) && Less(x, date) ==> x == p.value || Less(x, p.value))
  }

  /** `n` is the least article date strictly after `date`, and none exactly
      when no article date is after it. */
  ghost predicate IsNextDate(articles: seq<Article>, date: string, n: Option<string>) {
    && (n.None? <==> forall x :: HasDate(articles, x) ==> !Less(date, x))
    && (n.Some? ==>
          && HasDate(articles, n.value) && Less(date, n.value)
          && forall x :: HasDate(articles, x) && Less(date, x) ==> x == n.value || Less(n.value, x))
  }

  /** The previous date is the greatest article date strictly before `date`,
      and there is none exactly when no article date is before it. */
  lemma PrevIsGreatestBefore(articles: seq<Article>, date: string)
    ensures IsPrevDate(articles, date, PrevDate(articles, date))
  {
    var r := DescendingDistinct(DatesBefore(articles, date));
    if r != [] {
      assert r[0] in DatesBefore(articles, date);
      forall x | HasDate(articles, x) && Less(x, date) ensures x == r[0] || Less(x, r[0]) {
        var k :| 0 <= k < |r| && r[k] == x;
      }
    } else {
      forall x | HasDate(articles, x) ensures !Less(x, date) {
        assert x !in r;
      }
    }
  }

  /** The next date is the least article date strictly after `date`, and
      there is none exactly when no article date is after it. */
  lemma NextIsLeastAfter(articles: seq<Article>, date: string)
    ensures IsNextDate(articles, date, NextDate(articles, date))
  {
    var r := AscendingDistinct(DatesAfter(articles, date));
    if r != [] {
      assert r[0] in DatesAfter(articles, date);
      forall x | HasDate(articles, x) && Less(date, x) ensures x == r[0] || Less(r[0], x) {
        var k :| 0 <= k < |r| && r[k] == x;
      }
    } else {
      forall x | HasDate(articles, x) ensures !Less(date, x) {
        assert x !in r;
      }
    }
  }

  predicate IdBefore(a: Article, b: Article) {
    a.id < b.id
  }

  function NegatedId(a: Article): int {
    -a.id
  }

  function OnDate(date: string): Article -> bool {
    (a: Article) => a.date == date
  }

  function BriefingOn(date: string): DailyBriefing -> bool {
    (b: DailyBriefing) => b.date == date
  }

  /** `SELECT * FROM articles WHERE date = ? ORDER BY id ASC`. */
  function ArticlesOn(articles: seq<Article>, date: string): (r: seq<Article>)
    ensures multiset(r) == multiset(Filter(articles, OnDate(date)))
    ensures forall a :: a in r <==> a in articles && a.date == date
    ensures forall i, j :: 0 <= i < j < |r| ==> r[i].id <= r[j].id
  {
    var rows := Filter(articles, OnDate(date));
    FilterMembers(articles, OnDate(date));
    StableSort.HigherFirst(IdBefore, NegatedId);
    StableSort.SortSorted(rows, IdBefore);
    StableSort.SortMembers(rows, IdBefore);
    StableSort.Sort(rows, IdBefore)
  }

  /** `SELECT * FROM daily_briefings WHERE date = ?`. */
  function BriefingsOn(briefings: seq<DailyBriefing>, date: string): (r: seq<DailyBriefing>)
    ensures forall b :: b in r <==> b in briefings && b.date == date
  {
    FilterMembers(briefings, BriefingOn(date));
    Filter(briefings, BriefingOn(date))
  }

  /** `getDailyData`: a briefing of the date (null exactly when it has
      none), the date's articles by id, and the neighbouring article dates. */
  function GetDailyData(db: Option<Snapshot>, date: string): (r: DailyData)
    ensures db.None? ==> r == DailyData(None, [], None, None)
    ensures db.Some? ==>
      && (r.briefing.None? <==> forall b :: b in db.value.briefings ==> b.date != date)
      && (r.briefing.Some? ==> r.briefing.value in db.value.briefings && r.briefing.value.date == date)
    ensures db.Some? ==>
      && multiset(r.articles) == multiset(Filter(db.value.articles, OnDate(date)))
      && (forall a :: a in r.articles <==> a in db.value.articles && a.date == date)
      && (forall i, j :: 0 <= i < j < |r.articles| ==> r.articles[i].id <= r.articles[j].id)
    ensures db.Some? ==> IsPrevDate(db.value.articles, date, r.prevDate)
    ensures db.Some? ==> IsNextDate(db.value.articles, date, r.nextDate)
  {
    if db.None? then DailyData(None, [], None, None)
    else
      var briefings := BriefingsOn(db.value.briefings, date);
      assert briefings == [] <==> forall b :: b in db.value.briefings ==> b.date != date by {
        if briefings != [] {
          assert briefings[0] in briefings;
        }
      }
      PrevIsGreatestBefore(db.value.articles, date);
      NextIsLeastAfter(db.value.articles, date);
      DailyData(QueryOne(briefings),
                ArticlesOn(db.value.articles, date),
                PrevDate(db.value.articles, date),
                NextDate(db.value.articles, date))
  }

  // ---------------------------------------------------------------------
  // Grouping by month

  /** `d.slice(0, 7)`: the `YYYY-MM` part of a date. */
  function Month(d: string): string {
    Text.Take(d, 7)
  }

  /** The dates of one month, in the order of `dates`. */
  function InMonth(dates: seq<string>, month: string): (r: seq<string>)
    ensures forall x :: x in r <==> x in dates && Month(x) == month
    decreases |dates|
  {
    if dates == [] then []
    else
      assert dates == dates[..|dates| - 1] + [dates[|dates| - 1]];
      InMonth(dates[..|dates| - 1], month)
      + (if Month(dates[|dates| - 1]) == month then [dates[|dates| - 1]] else [])
  }

  /** One entry of the `grouped` record: a month key and its dates. */
  datatype Group = Group(month: string, dates: seq<string>)

  function Keys(grouped: seq<Group>): (r: seq<string>)
    ensures |r| == |grouped|
    ensures forall k :: 0 <= k < |r| ==> r[k] == grouped[k].month
  {
    seq(|grouped|, k requires 0 <= k < |grouped| => grouped[k].month)
  }

  /** The number of dates in all groups. */
  function Total(grouped: seq<Group>): nat
    decreases |grouped|
  {
    if grouped == [] then 0 else Total(grouped[..|grouped| - 1]) + |grouped[|grouped| - 1].dates|
  }

  /** What grouping promises: one group per month, keys in first-occurrence
      order and distinct, each group the month's dates in their order (so
      never empty), and every date in a group. */
  predicate GroupedBy(dates: seq<string>, grouped: seq<Group>) {
    Partitioned(dates, grouped) && FirstSeenOrder(dates, grouped)
  }

  /** The grouping's partition part: distinct keys, each group its month's
      dates in order and non-empty, and every date's month a key. */
  predicate Partitioned(dates: seq<string>, grouped: seq<Group>) {
    && NoDuplicates(Keys(grouped))
    && (forall k :: 0 <= k < |grouped| ==> grouped[k].dates == InMonth(dates, grouped[k].month))
    && (forall k :: 0 <= k < |grouped| ==> grouped[k].dates != [])
    && (forall j :: 0 <= j < |dates| ==> Month(dates[j]) in Keys(grouped))
  }

  /** The position of the first date of `month`, or `|dates|` when there is none. */
  function FirstOfMonth(dates: seq<string>, month: string): (k: nat)
    ensures k <= |dates|
    ensures k < |dates| ==> Month(dates[k]) == month
    decreases |dates|
  {
    if dates == [] then 0
    else if Month(dates[0]) == month then 0
    else 1 + FirstOfMonth(dates[1..], month)
  }

  /** No date before the first one of `month` is of that month. */
  lemma {:induction false} FirstOfMonthIsFirst(dates: seq<string>, month: string)
    ensures forall j :: 0 <= j < FirstOfMonth(dates, month) ==> Month(dates[j]) != month
    decreases |dates|
  {
    if dates != [] && Month(dates[0]) != month {
      FirstOfMonthIsFirst(dates[1..], month);
      assert forall j :: 1 <= j < FirstOfMonth(dates, month) ==> dates[j] == dates[1..][j - 1];
    }
  }

  /** Groups come in the order in which their months first appear. */
  predicate FirstSeenOrder(dates: seq<string>, grouped: seq<Group>) {
    forall i, j :: 0 <= i < j < |grouped| ==>
      FirstOfMonth(dates, grouped[i].month) < FirstOfMonth(dates, grouped[j].month)
  }

  /** The characterisation of `FirstOfMonth` determines it. */
  lemma FirstOfMonthUnique(dates: seq<string>, month: string, k: nat)
    requires k <= |dates|
    requires k < |dates| ==> Month(dates[k]) == month
    requires forall j :: 0 <= j < k ==> Month(dates[j]) != month
    ensures FirstOfMonth(dates, month) == k
  {
    FirstOfMonthIsFirst(dates, month);
  }

  /** A month that already occurs keeps its first position when a date is appended. */
  lemma FirstOfMonthAppend(dates: seq<string>, d: string, month: string, w: nat)
    requires w < |dates| && Month(dates[w]) == month
    ensures FirstOfMonth(dates + [d], month) == FirstOfMonth(dates, month) < |dates|
  {
    var f := FirstOfMonth(dates, month);
    FirstOfMonthIsFirst(dates, month);
    assert f <= w;
    assert forall j :: 0 <= j <= f ==> (dates + [d])[j] == dates[j];
    FirstOfMonthUnique(dates + [d], month, f);
  }

  /** Every group's month first occurs within `dates`, at the same place
      after `d` is appended. */
  lemma FirstsKept(dates: seq<string>, grouped: seq<Group>, d: string)
    requires forall k :: 0 <= k < |grouped| ==> grouped[k].dates == InMonth(dates, grouped[k].month)
    requires forall k :: 0 <= k < |grouped| ==> grouped[k].dates != []
    ensures forall k :: 0 <= k < |grouped| ==>
      FirstOfMonth(dates + [d], grouped[k].month) == FirstOfMonth(dates, grouped[k].month) < |dates|
  {
    forall k | 0 <= k < |grouped|
      ensures FirstOfMonth(dates + [d], grouped[k].month) == FirstOfMonth(dates, grouped[k].month) < |dates|
    {
      var x := grouped[k].dates[0];
      assert x in InMonth(dates, grouped[k].month);
      var w :| 0 <= w < |dates| && dates[w] == x;
      FirstOfMonthAppend(dates, d, grouped[k].month, w);
    }
  }

  /** A month with no earlier date first occurs at the appended date. */
  lemma NewMonthFirst(dates: seq<string>, d: string)
    requires forall j :: 0 <= j < |dates| ==> Month(dates[j]) != Month(d)
    ensures FirstOfMonth(dates + [d], Month(d)) == |dates|
  {
    assert forall j :: 0 <= j < |dates| ==> (dates + [d])[j] == dates[j];
    FirstOfMonthUnique(dates + [d], Month(d), |dates|);
  }

  /** A new month's group goes last, after every month already seen. */
  lemma NewGroupOrder(dates: seq<string>, grouped: seq<Group>, d: string)
    requires Partitioned(dates, grouped) && FirstSeenOrder(dates, grouped)
    requires Month(d) !in Keys(grouped)
    ensures FirstSeenOrder(dates + [d], grouped + [Group(Month(d), [d])])
  {
    FirstsKept(dates, grouped, d);
    assert forall j :: 0 <= j < |dates| ==> Month(dates[j]) != Month(d);
    NewMonthFirst(dates, d);
    LastInOrder(dates, dates + [d], grouped, Group(Month(d), [d]));
  }

  /** A group whose month first occurs after all of `before` can go last. */
  lemma LastInOrder(before: seq<string>, after: seq<string>, grouped: seq<Group>, g: Group)
    requires FirstSeenOrder(before, grouped)
    requires forall k :: 0 <= k < |grouped| ==>
      FirstOfMonth(after, grouped[k].month) == FirstOfMonth(before, grouped[k].month) < |before|
    requires FirstOfMonth(after, g.month) == |before|
    ensures FirstSeenOrder(after, grouped + [g])
  {
    var r := grouped + [g];
    forall i, j | 0 <= i < j < |r|
      ensures FirstOfMonth(after, r[i].month) < FirstOfMonth(after, r[j].month)
    {
      assert r[i] == grouped[i];
      if j < |grouped| {
        assert r[j] == grouped[j];
      } else {
        assert r[j] == g;
      }
    }
  }

  /** Adding a date to an existing group leaves the key order as it was. */
  lemma ExistingGroupOrder(dates: seq<string>, grouped: seq<Group>, d: string, k: nat)
    requires Partitioned(dates, grouped) && FirstSeenOrder(dates, grouped)
    requires k < |grouped| && grouped[k].month == Month(d)
    ensures FirstSeenOrder(dates + [d], grouped[k := Group(Month(d), grouped[k].dates + [d])])
  {
    var r := grouped[k := Group(Month(d), grouped[k].dates + [d])];
    FirstsKept(dates, grouped, d);
    forall i, j | 0 <= i < j < |r|
      ensures FirstOfMonth(dates + [d], r[i].month) < FirstOfMonth(dates + [d], r[j].month)
    {
      assert r[i].month == grouped[i].month && r[j].month == grouped[j].month;
    }
  }

  /** `getDatesByMonth`'s loop over already-fetched dates. */
  method GroupByMonth(dates: seq<string>) returns (grouped: seq<Group>)
    ensures GroupedBy(dates, grouped)
    ensures Total(grouped) == |dates|
  {
    grouped := [];
    var i := 0;
    while i < |dates|
      invariant 0 <= i <= |dates|
      invariant GroupedBy(dates[..i], grouped)
      invariant Total(grouped) == i
    {
      var done := dates[..i];
      PrefixGrows(dates, i);
      grouped := Push(done, grouped, dates[i]);
      i := i + 1;
    }
    assert dates[..i] == dates;
  }

  lemma PrefixGrows(dates: seq<string>, i: nat)
    requires i < |dates|
    ensures dates[..i + 1] == dates[..i] + [dates[i]]
  {
  }

  /** The loop's body: `if (!grouped[month]) grouped[month] = [];
      grouped[month].push(d);`. */
  method Push(done: seq<string>, grouped: seq<Group>, d: string) returns (r: seq<Group>)
    requires GroupedBy(done, grouped)
    ensures GroupedBy(done + [d], r)
    ensures Total(r) == Total(grouped) + 1
  {
    var month := Month(d);
    var k := IndexOfKey(grouped, month);
    r := grouped;
    if k == |r| {
      r := r + [Group(month, [])];
      assert r[k].dates + [d] == [d];
    }
    r := r[k := Group(month, r[k].dates + [d])];
    if k == |grouped| {
      assert r == grouped + [Group(month, [d])];
      NewGroup(done, grouped, d);
      NewGroupOrder(done, grouped, d);
    } else {
      assert r == grouped[k := Group(month, grouped[k].dates + [d])];
      ExistingGroup(done, grouped, d, k);
      ExistingGroupOrder(done, grouped, d, k);
    }
  }

  /** The position of the group for `month`, or `|grouped|` when there is none. */
  function IndexOfKey(grouped: seq<Group>, month: string): (k: nat)
    ensures k <= |grouped|
    ensures k < |grouped| ==> grouped[k].month == month
    ensures k == |grouped| ==> month !in Keys(grouped)
    decreases |grouped|
  {
    if grouped == [] then 0
    else if grouped[0].month == month then 0
    else
      var k := IndexOfKey(grouped[1..], month);
      assert Keys(grouped[1..]) == Keys(grouped)[1..];
      1 + k
  }

  lemma {:induction false} TotalAppend(grouped: seq<Group>, g: Group)
    ensures Total(grouped + [g]) == Total(grouped) + |g.dates|
  {
    assert (grouped + [g])[..|grouped|] == grouped;
  }

  lemma {:induction false} TotalUpdate(grouped: seq<Group>, k: nat, g: Group)
    requires k < |grouped|
    ensures Total(grouped[k := g]) == Total(grouped) - |grouped[k].dates| + |g.dates|
    decreases |grouped|
  {
    var last := |grouped| - 1;
    if k < last {
      TotalUpdate(grouped[..last], k, g);
      assert grouped[k := g][..last] == grouped[..last][k := g];
    } else {
      assert grouped[k := g][..last] == grouped[..last];
    }
  }

  /** A month without a group has no dates yet. */
  lemma NoDatesOfNewMonth(dates: seq<string>, grouped: seq<Group>, m: string)
    requires Partitioned(dates, grouped) && m !in Keys(grouped)
    ensures InMonth(dates, m) == []
  {
    InMonthNone(dates, m);
  }

  lemma {:induction false} InMonthNone(dates: seq<string>, m: string)
    requires forall j :: 0 <= j < |dates| ==> Month(dates[j]) != m
    ensures InMonth(dates, m) == []
    decreases |dates|
  {
    if dates != [] {
      InMonthNone(dates[..|dates| - 1], m);
    }
  }

  /** Appending a date changes only its own month's dates. */
  lemma InMonthAppend(dates: seq<string>, d: string, m: string)
    ensures InMonth(dates + [d], m) == InMonth(dates, m) + (if Month(d) == m then [d] else [])
  {
    assert (dates + [d])[..|dates|] == dates;
  }

  /** Every date of `dates + [d]` has its month among the keys. */
  lemma CoversAppend(dates: seq<string>, grouped: seq<Group>, r: seq<Group>, d: string)
    requires forall j :: 0 <= j < |dates| ==> Month(dates[j]) in Keys(grouped)
    requires forall m :: m in Keys(grouped) ==> m in Keys(r)
    requires Month(d) in Keys(r)
    ensures forall j :: 0 <= j < |dates + [d]| ==> Month((dates + [d])[j]) in Keys(r)
  {
    forall j | 0 <= j < |dates + [d]| ensures Month((dates + [d])[j]) in Keys(r) {
      if j < |dates| {
        assert (dates + [d])[j] == dates[j];
      }
    }
  }

  /** A new month: a group with the one date at the end. */
  lemma NewGroup(dates: seq<string>, grouped: seq<Group>, d: string)
    requires Partitioned(dates, grouped) && Month(d) !in Keys(grouped)
    ensures Partitioned(dates + [d], grouped + [Group(Month(d), [d])])
    ensures Total(grouped + [Group(Month(d), [d])]) == Total(grouped) + 1
  {
    var m := Month(d);
    var r := grouped + [Group(m, [d])];
    NewGroupKeys(grouped, m);
    assert Keys(r) == Keys(grouped) + [m];
    assert NoDuplicates(Keys(r));
    NewGroupDates(dates, grouped, d);
    assert forall k :: 0 <= k < |r| ==> r[k].dates != [] by {
      forall k | 0 <= k < |r| ensures r[k].dates != [] {
        if k < |grouped| {
          assert r[k] == grouped[k];
        }
      }
    }
    assert forall x :: x in Keys(grouped) ==> x in Keys(r);
    assert m in Keys(r);
    CoversAppend(dates, grouped, r, d);
    TotalAppend(grouped, Group(m, [d]));
  }

  lemma NewGroupKeys(grouped: seq<Group>, m: string)
    requires NoDuplicates(Keys(grouped)) && m !in Keys(grouped)
    ensures Keys(grouped + [Group(m, [])]) == Keys(grouped) + [m]
    ensures forall dates :: Keys(grouped + [Group(m, dates)]) == Keys(grouped) + [m]
    ensures NoDuplicates(Keys(grouped) + [m])
  {
    var ks := Keys(grouped) + [m];
    forall i, j | 0 <= i < j < |ks| ensures ks[i] != ks[j] {
      if j == |grouped| {
        assert ks[i] == Keys(grouped)[i];
      } else {
        assert ks[i] == Keys(grouped)[i] && ks[j] == Keys(grouped)[j];
      }
    }
  }

  /** Each group of `grouped + [Group(Month(d), [d])]` holds its month's dates. */
  lemma NewGroupDates(dates: seq<string>, grouped: seq<Group>, d: string)
    requires Partitioned(dates, grouped) && Month(d) !in Keys(grouped)
    ensures var r := grouped + [Group(Month(d), [d])];
      forall k :: 0 <= k < |r| ==> r[k].dates == InMonth(dates + [d], r[k].month)
  {
    var m := Month(d);
    var r := grouped + [Group(m, [d])];
    NoDatesOfNewMonth(dates, grouped, m);
    forall k | 0 <= k < |r| ensures r[k].dates == InMonth(dates + [d], r[k].month) {
      InMonthAppend(dates, d, r[k].month);
      if k < |grouped| {
        assert r[k] == grouped[k];
        assert Keys(grouped)[k] == grouped[k].month;
      }
    }
  }

  /** A month seen before: the date goes at the end of its group. */
  lemma ExistingGroup(dates: seq<string>, grouped: seq<Group>, d: string, k: nat)
    requires Partitioned(dates, grouped) && k < |grouped| && grouped[k].month == Month(d)
    ensures Partitioned(dates + [d], grouped[k := Group(Month(d), grouped[k].dates + [d])])
    ensures Total(grouped[k := Group(Month(d), grouped[k].dates + [d])]) == Total(grouped) + 1
  {
    var g := Group(Month(d), grouped[k].dates + [d]);
    var r := grouped[k := g];
    assert Keys(r) == Keys(grouped);
    ExistingGroupDates(dates, grouped, d, k);
    assert forall i :: 0 <= i < |r| ==> r[i].dates != [] by {
      forall i | 0 <= i < |r| ensures r[i].dates != [] {
        if i != k {
          assert r[i] == grouped[i];
        }
      }
    }
    assert forall x :: x in Keys(grouped) ==> x in Keys(r);
    assert Month(d) in Keys(r) by {
      assert Keys(r)[k] == Month(d);
    }
    CoversAppend(dates, grouped, r, d);
    TotalUpdate(grouped, k, g);
  }

  /** Each group of the updated grouping holds its month's dates. */
  lemma ExistingGroupDates(dates: seq<string>, grouped: seq<Group>, d: string, k: nat)
    requires Partitioned(dates, grouped) && k < |grouped| && grouped[k].month == Month(d)
    ensures var r := grouped[k := Group(Month(d), grouped[k].dates + [d])];
      forall i :: 0 <= i < |r| ==> r[i].dates == InMonth(dates + [d], r[i].month)
  {
    var r := grouped[k := Group(Month(d), grouped[k].dates + [d])];
    forall i | 0 <= i < |r| ensures r[i].dates == InMonth(dates + [d], r[i].month) {
      InMonthAppend(dates, d, r[i].month);
      if i != k {
        assert r[i] == grouped[i];
        assert Keys(grouped)[i] == grouped[i].month && Keys(grouped)[k] == grouped[k].month;
      }
    }
  }

  /** A date is in exactly one group: the one of its month. */
  lemma DateInItsGroupOnly(dates: seq<string>, grouped: seq<Group>, d: string, k: nat)
    requires GroupedBy(dates, grouped) && k < |grouped|
    ensures d in grouped[k].dates <==> d in dates && Month(d) == grouped[k].month
  {
  }
}
