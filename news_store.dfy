/**
 * The writer side of `news.db` (news_bot.py, `save_to_sqlite`): one run
 * replaces everything stored for its date, the briefing and the articles,
 * and leaves the other dates alone.
 *
 * The tables are the fields of `NewsDb`: the article rows in `id` order, the
 * briefing rows (`date` is their primary key), and the next `AUTOINCREMENT`
 * id. The clock is the parameter `now`; a database error anywhere in the
 * transaction is the parameter `fails`, and since nothing is committed then,
 * it leaves the tables as they were.
 */
module NewsStore {
  import opened Wrappers
  import opened Types
  import Order
  import ArchiveDb
  import StableSort

  /** The fields of a selected article that are stored, `''` where one is
      missing (`art.get(key, '')`). */
  datatype Selection = Selection(
    category: string,
    title: string,
    titleOriginal: string,
    url: string,
    summary: string,
    detectedDate: string)

  /** The row inserted for one selected article; `insight` is always `''`. */
  function Row(id: int, date: string, s: Selection, now: string): Article {
    Article(id, date, s.category, s.title, Some(s.titleOriginal), s.url, Some(s.summary), Some(""),
            Some(s.detectedDate), now)
  }

  /** The rows inserted for the selected articles, with consecutive ids. */
  function NewRows(date: string, items: seq<Selection>, now: string, firstId: int): (rows: seq<Article>)
    ensures |rows| == |items|
  {
    seq(|items|, k requires 0 <= k < |items| => Row(firstId + k, date, items[k], now))
  }

  function NotOnDate(date: string): Article -> bool {
    (a: Article) => a.date != date
  }

  function BriefingNotOn(date: string): DailyBriefing -> bool {
    (b: DailyBriefing) => b.date != date
  }

  /** `DELETE FROM articles WHERE date = ?`. */
  function OtherArticles(rows: seq<Article>, date: string): seq<Article> {
    Order.Filter(rows, NotOnDate(date))
  }

  /** `DELETE FROM daily_briefings WHERE date = ?`. */
  function OtherBriefings(rows: seq<DailyBriefing>, date: string): seq<DailyBriefing> {
    Order.Filter(rows, BriefingNotOn(date))
  }

  /** `UPDATE daily_briefings SET analysis = ?, created_at = ? WHERE date = ?`. */
  function Updated(rows: seq<DailyBriefing>, date: string, analysis: string, now: string): (r: seq<DailyBriefing>)
    ensures |r| == |rows|
  {
    seq(|rows|, k requires 0 <= k < |rows| =>
      if rows[k].date == date then DailyBriefing(date, analysis, now) else rows[k])
  }

  /** The article rows of one date, in table order. */
  function RowsOn(rows: seq<Article>, date: string): seq<Article> {
    Order.Filter(rows, ArchiveDb.OnDate(date))
  }

  predicate IdsAscending(rows: seq<Article>) {
    forall i, j :: 0 <= i < j < |rows| ==> rows[i].id < rows[j].id
  }

  /** The primary key of `daily_briefings`. */
  predicate DistinctDates(rows: seq<DailyBriefing>) {
    forall i, j :: 0 <= i < j < |rows| ==> rows[i].date != rows[j].date
  }

  /** The contents of both tables and the id counter. */
  datatype Tables = Tables(articles: seq<Article>, briefings: seq<DailyBriefing>, nextId: int)

  /** What the tables must satisfy: ids ascend in table order and stay below
      the counter, and no two briefings share a date. */
  predicate Consistent(t: Tables) {
    && IdsAscending(t.articles)
    && (forall k :: 0 <= k < |t.articles| ==> t.articles[k].id < t.nextId)
    && DistinctDates(t.briefings)
  }

  /** The tables after a committed save. */
  function AfterSave(t: Tables, date: string, analysis: string, items: seq<Selection>, now: string): Tables {
    Tables(OtherArticles(t.articles, date) + NewRows(date, items, now, t.nextId),
           OtherBriefings(t.briefings, date) + (if analysis == [] then [] else [DailyBriefing(date, analysis, now)]),
           t.nextId + |items|)
  }

  class NewsDb {
    var articles: seq<Article>
    var briefings: seq<DailyBriefing>
    var nextId: int

    function State(): Tables
      reads this
    {
      Tables(articles, briefings, nextId)
    }

    predicate Valid()
      reads this
    {
      Consistent(State())
    }

    /** A new, empty database. */
    constructor ()
      ensures State() == Tables([], [], 1) && Valid()
    {
      articles, briefings, nextId := [], [], 1;
    }

    method DeleteArticles(date: string)
      modifies this
      ensures State() == old(State()).(articles := OtherArticles(old(articles), date))
    {
      articles := OtherArticles(articles, date);
    }

    method DeleteBriefings(date: string)
      modifies this
      ensures State() == old(State()).(briefings := OtherBriefings(old(briefings), date))
    {
      briefings := OtherBriefings(briefings, date);
    }

    /** `INSERT INTO articles`, with the next id. */
    method InsertArticle(date: string, s: Selection, now: string)
      modifies this
      ensures State() == old(State()).(articles := old(articles) + [Row(old(nextId), date, s, now)],
                                       nextId := old(nextId) + 1)
    {
      articles := articles + [Row(nextId, date, s, now)];
      nextId := nextId + 1;
    }

    /** `INSERT INTO daily_briefings`, for a date without a row. */
    method InsertBriefing(b: DailyBriefing)
      modifies this
      ensures State() == old(State()).(briefings := old(briefings) + [b])
    {
      briefings := briefings + [b];
    }

    /** `UPDATE daily_briefings … WHERE date = ?`. */
    method UpdateBriefing(date: string, analysis: string, now: string)
      modifies this
      ensures State() == old(State()).(briefings := Updated(old(briefings), date, analysis, now))
    {
      briefings := Updated(briefings, date, analysis, now);
    }

    /** The loop of `INSERT INTO articles`, one row per selected article. */
    method InsertArticles(date: string, items: seq<Selection>, now: string)
      modifies this
      ensures State() == old(State()).(articles := old(articles) + NewRows(date, items, now, old(nextId)),
                                       nextId := old(nextId) + |items|)
    {
      var i := 0;
      assert NewRows(date, items[..0], now, nextId) == [];
      while i < |items|
        invariant 0 <= i <= |items|
        invariant State() == old(State()).(articles := old(articles) + NewRows(date, items[..i], now, old(nextId)),
                                           nextId := old(nextId) + i)
      {
        NewRowsSnoc(date, items[..i], items[i], now, old(nextId));
        assert items[..i + 1] == items[..i] + [items[i]];
        InsertArticle(date, items[i], now);
        i := i + 1;
      }
      assert items[..i] == items;
    }

    /** `save_to_sqlite`: False with no change for an empty selection or a
        database error; otherwise the date's briefing and articles are
        replaced, and True. */
    method SaveToSqlite(items: seq<Selection>, analysis: string, date: string, now: string, fails: bool)
      returns (ok: bool)
      requires Valid()
      modifies this
      ensures Valid()
      ensures items == [] || fails ==> !ok && State() == old(State())
      ensures items != [] && !fails ==> ok && State() == AfterSave(old(State()), date, analysis, items, now)
    {
      if items == [] || fails {
        return false;
      }
      ghost var before := State();
      DeleteBriefings(date);
      DeleteArticles(date);
      if analysis != [] {
        InsertBriefing(DailyBriefing(date, analysis, now));
      }
      assert nextId == before.nextId && articles == OtherArticles(before.articles, date);
      assert briefings == AfterSave(before, date, analysis, items, now).briefings;
      InsertArticles(date, items, now);
      SaveConsistent(before, date, analysis, items, now);
      ok := true;
    }
  }

  lemma NewRowsSnoc(date: string, items: seq<Selection>, s: Selection, now: string, firstId: int)
    ensures NewRows(date, items + [s], now, firstId) == NewRows(date, items, now, firstId) + [Row(firstId + |items|, date, s, now)]
  {
  }

  /** A save keeps the tables consistent. */
  lemma SaveConsistent(t: Tables, date: string, analysis: string, items: seq<Selection>, now: string)
    requires Consistent(t)
    ensures Consistent(AfterSave(t, date, analysis, items, now))
  {
    var kept := OtherArticles(t.articles, date);
    var rows := NewRows(date, items, now, t.nextId);
    Order.FilterPairwise(t.articles, NotOnDate(date), (a: Article, b: Article) => a.id < b.id);
    Order.FilterMembers(t.articles, NotOnDate(date));
    Order.FilterMembers(t.briefings, BriefingNotOn(date));
    forall k | 0 <= k < |kept| ensures kept[k].id < t.nextId {
      assert kept[k] in t.articles;
    }
    var all := kept + rows;
    forall i, j | 0 <= i < j < |all| ensures all[i].id < all[j].id {
      if j < |kept| {
        assert all[i] == kept[i] && all[j] == kept[j];
      } else if i < |kept| {
        assert all[i] == kept[i] && all[j] == rows[j - |kept|];
      } else {
        assert all[i] == rows[i - |kept|] && all[j] == rows[j - |kept|];
      }
    }
    var bs := OtherBriefings(t.briefings, date);
    Order.FilterPairwise(t.briefings, BriefingNotOn(date),
                         (a: DailyBriefing, b: DailyBriefing) => a.date != b.date);
    var nb := bs + (if analysis == [] then [] else [DailyBriefing(date, analysis, now)]);
    forall i, j | 0 <= i < j < |nb| ensures nb[i].date != nb[j].date {
      assert nb[i] == bs[i];
      if j < |bs| {
        assert nb[j] == bs[j];
      } else {
        assert bs[i] in t.briefings;
      }
    }
  }

  /** The date's rows are exactly the selected articles, in selection order,
      each stored with its fields and an empty insight. */
  lemma SaveReplacesDay(t: Tables, date: string, analysis: string, items: seq<Selection>, now: string)
    ensures var rows := RowsOn(AfterSave(t, date, analysis, items, now).articles, date);
      && |rows| == |items|
      && forall k :: 0 <= k < |items| ==>
           && rows[k].date == date && rows[k].title == items[k].title && rows[k].url == items[k].url
           && rows[k].category == items[k].category && rows[k].summary == Some(items[k].summary)
           && rows[k].insight == Some("") && rows[k].createdAt == now
  {
    SaveRowsOn(t, date, analysis, items, now);
  }

  /** The rows of every other date are as they were. */
  lemma SaveKeepsOtherDays(t: Tables, date: string, analysis: string, items: seq<Selection>, now: string, d: string)
    requires d != date
    ensures RowsOn(AfterSave(t, date, analysis, items, now).articles, d) == RowsOn(t.articles, d)
    ensures ArchiveDb.BriefingsOn(AfterSave(t, date, analysis, items, now).briefings, d)
         == ArchiveDb.BriefingsOn(t.briefings, d)
  {
    OtherDayArticles(t, date, items, now, d);
    OtherDayBriefing(t, date, analysis, now, d);
  }

  lemma OtherDayArticles(t: Tables, date: string, items: seq<Selection>, now: string, d: string)
    requires d != date
    ensures RowsOn(OtherArticles(t.articles, date) + NewRows(date, items, now, t.nextId), d) == RowsOn(t.articles, d)
  {
    var kept := OtherArticles(t.articles, date);
    var rows := NewRows(date, items, now, t.nextId);
    Order.FilterAppend(kept, rows, ArchiveDb.OnDate(d));
    forall k | 0 <= k < |rows| ensures !ArchiveDb.OnDate(d)(rows[k]) {
      assert rows[k].date == date;
    }
    Order.FilterNone(rows, ArchiveDb.OnDate(d));
    assert RowsOn(kept + rows, d) == RowsOn(kept, d);
    OnOtherDay(t.articles, date, d);
  }

  lemma OtherDayBriefing(t: Tables, date: string, analysis: string, now: string, d: string)
    requires d != date
    ensures var extra: seq<DailyBriefing> := if analysis == [] then [] else [DailyBriefing(date, analysis, now)];
      ArchiveDb.BriefingsOn(OtherBriefings(t.briefings, date) + extra, d) == ArchiveDb.BriefingsOn(t.briefings, d)
  {
    var bs := OtherBriefings(t.briefings, date);
    var extra: seq<DailyBriefing> := if analysis == [] then [] else [DailyBriefing(date, analysis, now)];
    Order.FilterAppend(bs, extra, ArchiveDb.BriefingOn(d));
    Order.FilterNone(extra, ArchiveDb.BriefingOn(d));
    BriefingOnOtherDay(t.briefings, date, d);
  }

  lemma {:induction false} OnOtherDay(rows: seq<Article>, date: string, d: string)
    requires d != date
    ensures RowsOn(OtherArticles(rows, date), d) == RowsOn(rows, d)
    decreases |rows|
  {
    if rows != [] {
      OnOtherDay(rows[..|rows| - 1], date, d);
      var last := rows[|rows| - 1];
      Order.FilterAppend(OtherArticles(rows[..|rows| - 1], date), if last.date != date then [last] else [],
                   ArchiveDb.OnDate(d));
    }
  }

  lemma {:induction false} BriefingOnOtherDay(rows: seq<DailyBriefing>, date: string, d: string)
    requires d != date
    ensures ArchiveDb.BriefingsOn(OtherBriefings(rows, date), d) == ArchiveDb.BriefingsOn(rows, d)
    decreases |rows|
  {
    if rows != [] {
      BriefingOnOtherDay(rows[..|rows| - 1], date, d);
      var last := rows[|rows| - 1];
      Order.FilterAppend(OtherBriefings(rows[..|rows| - 1], date), if last.date != date then [last] else [],
                   ArchiveDb.BriefingOn(d));
    }
  }

  /** The daily page of the date shows the briefing exactly when the
      analysis is non-empty, and then the new one. */
  lemma SaveBriefing(t: Tables, date: string, analysis: string, items: seq<Selection>, now: string)
    ensures ArchiveDb.QueryOne(ArchiveDb.BriefingsOn(AfterSave(t, date, analysis, items, now).briefings, date))
         == if analysis == [] then None else Some(DailyBriefing(date, analysis, now))
  {
    var bs := OtherBriefings(t.briefings, date);
    var extra: seq<DailyBriefing> := if analysis == [] then [] else [DailyBriefing(date, analysis, now)];
    Order.FilterAppend(bs, extra, ArchiveDb.BriefingOn(date));
    Order.FilterMembers(t.briefings, BriefingNotOn(date));
    assert forall k :: 0 <= k < |bs| ==> bs[k] in bs;
    Order.FilterNone(bs, ArchiveDb.BriefingOn(date));
    Order.FilterAll(extra, ArchiveDb.BriefingOn(date));
  }

  /** What the site reads back for the date (`ORDER BY id`) is exactly the
      rows the save inserted, in selection order. */
  lemma SiteReadsSavedDay(t: Tables, date: string, analysis: string, items: seq<Selection>, now: string)
    requires Consistent(t)
    ensures ArchiveDb.ArticlesOn(AfterSave(t, date, analysis, items, now).articles, date)
         == NewRows(date, items, now, t.nextId)
  {
    var after := AfterSave(t, date, analysis, items, now);
    SaveConsistent(t, date, analysis, items, now);
    var on := Order.Filter(after.articles, ArchiveDb.OnDate(date));
    Order.FilterPairwise(after.articles, ArchiveDb.OnDate(date), (a: Article, b: Article) => a.id < b.id);
    StableSort.SortOfSorted(on, ArchiveDb.IdBefore);
    SaveRowsOn(t, date, analysis, items, now);
  }

  lemma SaveRowsOn(t: Tables, date: string, analysis: string, items: seq<Selection>, now: string)
    ensures RowsOn(AfterSave(t, date, analysis, items, now).articles, date) == NewRows(date, items, now, t.nextId)
  {
    var kept := OtherArticles(t.articles, date);
    var rows := NewRows(date, items, now, t.nextId);
    var on := ArchiveDb.OnDate(date);
    assert AfterSave(t, date, analysis, items, now).articles == kept + rows;
    Order.FilterAppend(kept, rows, on);
    Order.FilterMembers(t.articles, NotOnDate(date));
    forall k | 0 <= k < |kept| ensures !on(kept[k]) {
      assert kept[k] in kept;
      assert NotOnDate(date)(kept[k]);
    }
    Order.FilterNone(kept, on);
    forall k | 0 <= k < |rows| ensures on(rows[k]) {
      assert rows[k].date == date;
    }
    Order.FilterAll(rows, on);
    assert Order.Filter(kept, on) + Order.Filter(rows, on) == [] + rows == rows;
  }
}
