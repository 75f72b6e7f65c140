/** Option and Result, for the nullable values and the error returns of the sources. */
module Wrappers {
  datatype Option<+T> = None | Some(value: T)

  datatype Result<+T, +E> = Ok(value: T) | Err(error: E)
}

/**
 * The records of web/lib/types.ts: rows of the `articles`, `daily_briefings`
 * and `comments` tables and the data one daily page is rendered from.
 */
module Types {
  import opened Wrappers

  /** A row of the `articles` table. */
  datatype Article = Article(
    id: int,
    date: string,
    category: string,
    title: string,
    titleOriginal: Option<string>,
    url: string,
    summary: Option<string>,
    insight: Option<string>,
    detectedDate: Option<string>,
    createdAt: string)

  /** A row of the `daily_briefings` table. */
  datatype DailyBriefing = DailyBriefing(date: string, analysis: string, createdAt: string)

  /** A comment as the read path returns it (without the stored client key). */
  datatype Comment = Comment(id: int, date: string, nickname: string, content: string, createdAt: string)

  /** Everything one daily page needs. */
  datatype DailyData = DailyData(
    briefing: Option<DailyBriefing>,
    articles: seq<Article>,
    prevDate: Option<string>,
    nextDate: Option<string>)
}
