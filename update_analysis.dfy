/**
 * update_analysis.py: the command `update_analysis.py <date> <analysis>`
 * stores a hand-written analysis for a date in `news.db`, replacing the
 * briefing of that date if there is one and adding it otherwise.
 *
 * The command line is `argv` (the script name first), whether the database
 * file exists is `dbExists`, and the Seoul clock reading is `now`.
 */
module UpdateAnalysis {
  import opened Types
  import Order
  import ArchiveDb
  import NewsStore

  /** The briefing rows after the upsert. */
  function Upsert(rows: seq<DailyBriefing>, date: string, analysis: string, now: string): seq<DailyBriefing> {
    if ArchiveDb.BriefingsOn(rows, date) != [] then NewsStore.Updated(rows, date, analysis, now)
    else rows + [DailyBriefing(date, analysis, now)]
  }

  /** `main`: exit status 1 and no change when the date or the analysis is
      missing or there is no database file; otherwise the upsert and 0. */
  method Run(argv: seq<string>, dbExists: bool, db: NewsStore.NewsDb, now: string) returns (exitCode: int)
    requires db.Valid()
    modifies db
    ensures db.Valid()
    ensures |argv| < 3 || !dbExists ==> exitCode == 1 && db.State() == old(db.State())
    ensures |argv| >= 3 && dbExists ==>
      && exitCode == 0
      && db.State() == old(db.State()).(briefings := Upsert(old(db.briefings), argv[1], argv[2], now))
  {
    if |argv| < 3 {
      return 1;
    }
    var date := argv[1];
    var analysis := argv[2];
    if !dbExists {
      return 1;
    }
    UpsertDistinct(db.briefings, date, analysis, now);
    if ArchiveDb.BriefingsOn(db.briefings, date) != [] {
      db.UpdateBriefing(date, analysis, now);
    } else {
      db.InsertBriefing(DailyBriefing(date, analysis, now));
    }
    return 0;
  }

  /** The dates of the rows, in table order. */
  function Dates(rows: seq<DailyBriefing>): (r: seq<string>)
    ensures |r| == |rows|
  {
    seq(|rows|, k requires 0 <= k < |rows| => rows[k].date)
  }

  /** A date has a row exactly when it is among the dates. */
  lemma HasRow(rows: seq<DailyBriefing>, date: string)
    ensures ArchiveDb.BriefingsOn(rows, date) != [] <==> date in Dates(rows)
  {
    var on := ArchiveDb.BriefingsOn(rows, date);
    if date in Dates(rows) {
      var k :| 0 <= k < |rows| && Dates(rows)[k] == date;
      assert rows[k] in on;
    }
    if on != [] {
      assert on[0] in rows;
      var k :| 0 <= k < |rows| && rows[k] == on[0];
      assert Dates(rows)[k] == date;
    }
  }

  /** With the date as primary key, a date has at most one row. */
  lemma AtMostOne(rows: seq<DailyBriefing>, date: string)
    requires NewsStore.DistinctDates(rows)
    ensures |ArchiveDb.BriefingsOn(rows, date)| <= 1
  {
    var on := ArchiveDb.BriefingsOn(rows, date);
    Order.FilterPairwise(rows, ArchiveDb.BriefingOn(date),
                         (a: DailyBriefing, b: DailyBriefing) => a.date != b.date);
    assert |on| > 1 ==> on[0].date != on[1].date;
  }

  lemma UpdatedSnoc(rows: seq<DailyBriefing>, b: DailyBriefing, date: string, analysis: string, now: string)
    ensures NewsStore.Updated(rows + [b], date, analysis, now)
         == NewsStore.Updated(rows, date, analysis, now) + [if b.date == date then DailyBriefing(date, analysis, now) else b]
  {
  }

  /** The update rewrites as many rows of the date as there were. */
  lemma {:induction false} UpdatedCount(rows: seq<DailyBriefing>, date: string, analysis: string, now: string)
    ensures |ArchiveDb.BriefingsOn(NewsStore.Updated(rows, date, analysis, now), date)| == |ArchiveDb.BriefingsOn(rows, date)|
    decreases |rows|
  {
    if rows != [] {
      var init := rows[..|rows| - 1];
      var last := rows[|rows| - 1];
      UpdatedCount(init, date, analysis, now);
      assert rows == init + [last];
      UpdatedSnoc(init, last, date, analysis, now);
      var u := NewsStore.Updated(init, date, analysis, now);
      assert (u + [if last.date == date then DailyBriefing(date, analysis, now) else last])[..|u|] == u;
    }
  }

  /** The update leaves the rows of any other date as they were. */
  lemma {:induction false} UpdatedOther(rows: seq<DailyBriefing>, date: string, analysis: string, now: string, d: string)
    requires d != date
    ensures ArchiveDb.BriefingsOn(NewsStore.Updated(rows, date, analysis, now), d) == ArchiveDb.BriefingsOn(rows, d)
    decreases |rows|
  {
    if rows != [] {
      var init := rows[..|rows| - 1];
      var last := rows[|rows| - 1];
      UpdatedOther(init, date, analysis, now, d);
      assert rows == init + [last];
      UpdatedSnoc(init, last, date, analysis, now);
      var u := NewsStore.Updated(init, date, analysis, now);
      assert (u + [if last.date == date then DailyBriefing(date, analysis, now) else last])[..|u|] == u;
    }
  }

  /** Afterwards the date has exactly one row, and it holds the given
      analysis and the new timestamp. */
  lemma UpsertSingle(rows: seq<DailyBriefing>, date: string, analysis: string, now: string)
    requires NewsStore.DistinctDates(rows)
    ensures ArchiveDb.BriefingsOn(Upsert(rows, date, analysis, now), date) == [DailyBriefing(date, analysis, now)]
  {
    var b := DailyBriefing(date, analysis, now);
    if ArchiveDb.BriefingsOn(rows, date) != [] {
      AtMostOne(rows, date);
      UpdatedCount(rows, date, analysis, now);
      var on := ArchiveDb.BriefingsOn(NewsStore.Updated(rows, date, analysis, now), date);
      assert on[0] in NewsStore.Updated(rows, date, analysis, now);
      assert on == [on[0]];
    } else {
      assert (rows + [b])[..|rows|] == rows;
    }
  }

  /** The rows of every other date are unchanged. */
  lemma UpsertOthers(rows: seq<DailyBriefing>, date: string, analysis: string, now: string, d: string)
    requires d != date
    ensures ArchiveDb.BriefingsOn(Upsert(rows, date, analysis, now), d) == ArchiveDb.BriefingsOn(rows, d)
  {
    if ArchiveDb.BriefingsOn(rows, date) != [] {
      UpdatedOther(rows, date, analysis, now, d);
    } else {
      var b := DailyBriefing(date, analysis, now);
      assert (rows + [b])[..|rows|] == rows;
    }
  }

  /** The primary key survives the upsert. */
  lemma UpsertDistinct(rows: seq<DailyBriefing>, date: string, analysis: string, now: string)
    requires NewsStore.DistinctDates(rows)
    ensures NewsStore.DistinctDates(Upsert(rows, date, analysis, now))
  {
    if ArchiveDb.BriefingsOn(rows, date) == [] {
      forall k | 0 <= k < |rows| ensures rows[k].date != date {
        assert rows[k] in rows;
      }
    }
  }

  /** An existing row is rewritten where it stands; a new one goes last. */
  lemma UpsertOrder(rows: seq<DailyBriefing>, date: string, analysis: string, now: string)
    ensures Dates(Upsert(rows, date, analysis, now)) == Dates(rows) + (if date in Dates(rows) then [] else [date])
  {
    HasRow(rows, date);
    var r := Upsert(rows, date, analysis, now);
    if date in Dates(rows) {
      assert Dates(r) == Dates(rows);
    } else {
      assert Dates(r) == Dates(rows) + [date];
    }
  }
}
