/**
 * The archive page (web/app/archive/page.tsx): one calendar per month that
 * has news, newest month first, where the days with a briefing link to
 * their daily page.
 */
module ArchivePage {
  import opened Wrappers
  import opened Text
  import opened Order
  import ArchiveDb
  import CivilDate

  // ---------------------------------------------------------------------
  // One month's calendar

  /** The grid cells of a month: `firstDay` blanks (the weekday of the 1st,
      Sunday = 0), then the days 1 to `daysInMonth`. */
  method Cells(firstDay: nat, daysInMonth: nat) returns (cells: seq<Option<nat>>)
    ensures |cells| == firstDay + daysInMonth
    ensures forall i :: 0 <= i < firstDay ==> cells[i] == None
    ensures forall d :: 1 <= d <= daysInMonth ==> cells[firstDay + d - 1] == Some(d)
  {
    cells := [];
    var i := 0;
    while i < firstDay
      invariant 0 <= i <= firstDay && |cells| == i
      invariant forall j :: 0 <= j < i ==> cells[j] == None
    {
      cells := cells + [None];
      i := i + 1;
    }
    var d := 1;
    while d <= daysInMonth
      invariant 1 <= d <= daysInMonth + 1 && |cells| == firstDay + d - 1
      invariant forall j :: 0 <= j < firstDay ==> cells[j] == None
      invariant forall e :: 1 <= e < d ==> cells[firstDay + e - 1] == Some(e)
    {
      cells := cells + [Some(d)];
      d := d + 1;
    }
  }

  /** `` `${year}-${pad2(month)}-${pad2(day)}` ``: the year is written as it
      is, without padding. */
  function DateKey(year: int, month: nat, day: nat): (r: string)
    ensures 1000 <= year <= 9999 && month < 100 && day < 100 ==> IsDateShape(r)
  {
    var y, m, d := IntToString(year), PadStart(NatToString(month), 2, '0'), PadStart(NatToString(day), 2, '0');
    NatToStringLength(month);
    NatToStringLength(day);
    NatToStringLength(if year >= 0 then year else 0);
    DateShapeOf(y, m, d);
    y + "-" + m + "-" + d
  }

  /** For four-digit years the key is the date as the rest of the system
      writes it (`toISOString`), so the lookup in the active dates can hit. */
  lemma DateKeyIsIsoDate(d: CivilDate.Date)
    requires CivilDate.ValidDate(d) && 1000 <= d.year <= 9999
    ensures DateKey(d.year, d.month, d.day) == CivilDate.IsoDate(d)
  {
    NatToStringLength(d.year);
  }

  /** Years before 1000 are not padded, so their keys never have the date
      shape the stored dates have. */
  lemma ShortYearKey()
    ensures DateKey(999, 1, 1) == "999-01-01"
    ensures !IsDateShape(DateKey(999, 1, 1))
  {
    assert NatToString(99) == NatToString(9) + [DigitChar(9)] == "99";
    assert NatToString(999) == NatToString(99) + [DigitChar(9)] == "999";
    assert PadStart(NatToString(1), 2, '0') == [Repeat('0', 1)[0]] + "1" == "01";
  }

  /** How a grid cell renders. */
  datatype CellView =
    | Blank
    | Link(href: string, day: nat)   // a day with a briefing
    | Plain(day: nat)                 // a day without one

  function ViewCell(year: int, month: nat, cell: Option<nat>, active: set<string>): (v: CellView)
    ensures cell.None? <==> v == Blank
    ensures v.Link? <==> cell.Some? && DateKey(year, month, cell.value) in active
    ensures v.Link? ==> v.href == "/daily/" + DateKey(year, month, cell.value) && v.day == cell.value
    ensures v.Plain? ==> v.day == cell.value
  {
    match cell
    case None => Blank
    case Some(day) =>
      var key := DateKey(year, month, day);
      if key in active then Link("/daily/" + key, day) else Plain(day)
  }

  /** `CalendarMonth`: the cells, each rendered. */
  method CalendarMonth(year: int, month: nat, firstDay: nat, daysInMonth: nat, active: set<string>)
    returns (views: seq<CellView>)
    ensures |views| == firstDay + daysInMonth
    ensures forall i :: 0 <= i < firstDay ==> views[i] == Blank
    ensures forall d :: 1 <= d <= daysInMonth ==>
      views[firstDay + d - 1] == ViewCell(year, month, Some(d), active)
  {
    var cells := Cells(firstDay, daysInMonth);
    views := seq(|cells|, i requires 0 <= i < |cells| => Render(year, month, active)(cells[i]));
    RenderCells(cells, Render(year, month, active), firstDay, daysInMonth);
  }

  /** Rendering each cell keeps the blanks and the days in their places. */
  lemma RenderCells<U>(cells: seq<Option<nat>>, render: Option<nat> -> U, firstDay: nat, daysInMonth: nat)
    requires |cells| == firstDay + daysInMonth
    requires forall i :: 0 <= i < firstDay ==> cells[i] == None
    requires forall d :: 1 <= d <= daysInMonth ==> cells[firstDay + d - 1] == Some(d)
    ensures var views := seq(|cells|, i requires 0 <= i < |cells| => render(cells[i]));
      && (forall i :: 0 <= i < firstDay ==> views[i] == render(None))
      && (forall d :: 1 <= d <= daysInMonth ==> views[firstDay + d - 1] == render(Some(d)))
  {
    var views := seq(|cells|, i requires 0 <= i < |cells| => render(cells[i]));
    forall d | 1 <= d <= daysInMonth ensures views[firstDay + d - 1] == render(Some(d)) {
      assert cells[firstDay + d - 1] == Some(d);
    }
  }

  function Render(year: int, month: nat, active: set<string>): Option<nat> -> CellView {
    c => ViewCell(year, month, c, active)
  }

  // ---------------------------------------------------------------------
  // The page

  /** `Object.keys(datesByMonth).sort().reverse()`. */
  function MonthsShown(grouped: seq<ArchiveDb.Group>): (r: seq<string>)
    ensures |r| == |grouped|
    ensures forall m :: m in r <==> m in ArchiveDb.Keys(grouped)
    ensures NoDuplicates(ArchiveDb.Keys(grouped)) ==> StrictlyDescending(r)
  {
    var keys := ArchiveDb.Keys(grouped);
    ReverseSameElements(SortAsc(keys));
    var sorted := SortAsc(keys);
    forall x ensures x in sorted <==> x in keys {
      assert x in sorted <==> x in multiset(sorted);
      assert x in keys <==> x in multiset(keys);
    }
    DistinctKeysDescend(keys);
    Reverse(SortAsc(keys))
  }

  lemma DistinctKeysDescend(keys: seq<string>)
    ensures NoDuplicates(keys) ==> StrictlyDescending(Reverse(SortAsc(keys)))
  {
    if NoDuplicates(keys) {
      SortedDescending(keys);
    }
  }

  /** Whether `d` is in some month group. */
  predicate InSomeGroup(grouped: seq<ArchiveDb.Group>, d: string) {
    exists k :: 0 <= k < |grouped| && d in grouped[k].dates
  }

  /** The `allDates` set: the union of all month groups. */
  method AllDates(grouped: seq<ArchiveDb.Group>) returns (all: set<string>)
    ensures forall d :: d in all <==> InSomeGroup(grouped, d)
  {
    all := {};
    var k := 0;
    while k < |grouped|
      invariant 0 <= k <= |grouped|
      invariant forall d :: d in all <==> InSomeGroup(grouped[..k], d)
    {
      var dates := grouped[k].dates;
      var j := 0;
      while j < |dates|
        invariant 0 <= j <= |dates|
        invariant forall d :: d in all <==> InSomeGroup(grouped[..k], d) || d in dates[..j]
      {
        all := all + {dates[j]};
        assert dates[..j + 1] == dates[..j] + [dates[j]];
        j := j + 1;
      }
      assert dates[..j] == dates;
      assert grouped[..k + 1] == grouped[..k] + [grouped[k]];
      UnionStep(grouped[..k], grouped[k]);
      k := k + 1;
    }
    assert grouped[..k] == grouped;
  }

  lemma UnionStep(grouped: seq<ArchiveDb.Group>, g: ArchiveDb.Group)
    ensures forall d :: InSomeGroup(grouped + [g], d) <==> InSomeGroup(grouped, d) || d in g.dates
  {
    var r := grouped + [g];
    forall d ensures InSomeGroup(r, d) <==> InSomeGroup(grouped, d) || d in g.dates {
      if InSomeGroup(grouped, d) {
        var k :| 0 <= k < |grouped| && d in grouped[k].dates;
        assert r[k] == grouped[k];
      }
      if d in g.dates {
        assert r[|grouped|] == g;
      }
      if InSomeGroup(r, d) {
        var k :| 0 <= k < |r| && d in r[k].dates;
        if k < |grouped| {
          assert r[k] == grouped[k];
        }
      }
    }
  }

  /** When the groups come from the month grouping, their union is exactly
      the set of dates grouped. */
  lemma UnionIsAllDates(dates: seq<string>, grouped: seq<ArchiveDb.Group>)
    requires ArchiveDb.GroupedBy(dates, grouped)
    ensures forall d :: InSomeGroup(grouped, d) <==> d in dates
  {
    forall d ensures InSomeGroup(grouped, d) <==> d in dates {
      if d in dates {
        var j :| 0 <= j < |dates| && dates[j] == d;
        var month := ArchiveDb.Month(d);
        assert month in ArchiveDb.Keys(grouped);
        var k :| 0 <= k < |grouped| && ArchiveDb.Keys(grouped)[k] == month;
        assert d in grouped[k].dates;
      }
    }
  }

  /** What the page shows. */
  datatype Page =
    | EmptyState
    | Calendars(months: seq<string>, activeDates: set<string>)

  /** `ArchivePage`: the empty state when there are no months, otherwise the
      months newest first with the union of all dates as the active days. */
  method Archive(grouped: seq<ArchiveDb.Group>) returns (page: Page)
    ensures page == EmptyState <==> grouped == []
    ensures page.Calendars? ==>
      && page.months == MonthsShown(grouped)
      && forall d :: d in page.activeDates <==> InSomeGroup(grouped, d)
  {
    var months := MonthsShown(grouped);
    if |months| == 0 {
      return EmptyState;
    }
    var all := AllDates(grouped);
    page := Calendars(months, all);
  }
}
