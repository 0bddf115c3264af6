/** The calendar tab: one cell per date of the current year, in a grid of 12
    month columns and 31 day rows, filled with the sleep colour of the date,
    with gray for a past date without hours since the first recorded one, or
    with white. */
module Calendar {
  import opened Wrappers
  import opened Dates
  import opened SleepLog
  import opened Colors

  const MONTHS := 12
  const DAYS := 31

  /** `min(recorded)`: the earliest of a non-empty list of dates. */
  function EarliestDate(ds: seq<Date>): (m: Date)
    requires ds != []
    ensures m in ds && forall k :: 0 <= k < |ds| ==> !Before(ds[k], m)
  {
    if |ds| == 1 then ds[0]
    else
      var rest := EarliestDate(ds[1..]);
      if Before(rest, ds[0]) then rest else ds[0]
  }

  /** The dates whose value is not None, in log order. */
  function RecordedDates(log: Log): (ds: seq<Date>)
    ensures forall d :: d in ds <==> exists e :: e in log && e.hours.Some? && e.date == d
  {
    var rec := Recorded(log);
    var ds := seq(|rec|, k requires 0 <= k < |rec| => rec[k].date);
    assert forall d :: d in ds <==> exists e :: e in rec && e.date == d by {
      forall d ensures d in ds <==> exists e :: e in rec && e.date == d {
        if exists e :: e in rec && e.date == d {
          var e :| e in rec && e.date == d;
          var k :| 0 <= k < |rec| && rec[k] == e;
          assert ds[k] == d;
        }
      }
    }
    ds
  }

  /** `first_date`: the earliest date with hours, or today when there is
      none. */
  function FirstDate(log: Log, today: Date): (f: Date)
    ensures (forall e :: e in log ==> e.hours.None?) ==> f == today
    ensures (exists e :: e in log && e.hours.Some?) ==>
      (exists e :: e in log && e.hours.Some? && e.date == f)
      && forall e :: e in log && e.hours.Some? ==> !Before(e.date, f)
  {
    var ds := RecordedDates(log);
    if ds == [] then today
    else
      var f := EarliestDate(ds);
      assert forall e :: e in log && e.hours.Some? ==> !Before(e.date, f) by {
        forall e | e in log && e.hours.Some? ensures !Before(e.date, f) {
          assert e.date in ds;
          var k :| 0 <= k < |ds| && ds[k] == e.date;
        }
      }
      f
  }

  /** The fill of the cell of `dt`: the sleep colour when `dt` has hours,
      "#DDDDDD" when `first <= dt < today`, and "white" otherwise. The three
      are told apart by the colour alone: a sleep colour is never the gray
      nor white, so a cell is gray exactly when its date has no hours and
      lies in [first, today), and white exactly when it has no hours and lies
      outside. */
  function CellFill(log: Log, first: Date, today: Date, dt: Date): (fill: string)
    ensures fill == NO_DATA <==> Get(log, dt).None? && !Before(dt, first) && Before(dt, today)
    ensures fill == "white" <==> Get(log, dt).None? && !(!Before(dt, first) && Before(dt, today))
    ensures Get(log, dt).Some? ==> HexToRgb(fill) == Ok(SleepRgb(Get(log, dt).value))
  {
    var h := Get(log, dt);
    if h.Some? then
      SleepColorIsNotNoData(h.value);
      assert |GetSleepColor(h)| == 7;
      GetSleepColor(h)
    else if !Before(dt, first) && Before(dt, today) then "#DDDDDD"
    else "white"
  }

  /** One square of the grid: column x is the month, row y counts the days
      from the bottom, so day 1 is the top row. */
  datatype Cell = Cell(x: int, y: int, date: Date, fill: string)

  /** The order the cells are built in: by day, then by month. */
  predicate DrawnBefore(a: Date, b: Date) {
    a.day < b.day || (a.day == b.day && a.month < b.month)
  }

  predicate CellOk(log: Log, today: Date, c: Cell) {
    ValidDate(c.date) && c.date.year == today.year
    && c.x == c.date.month - 1 && c.y == DAYS - c.date.day
    && c.fill == CellFill(log, FirstDate(log, today), today, c.date)
  }

  /** The cells come in strictly increasing day-then-month order. */
  predicate InDrawingOrder(cells: seq<Cell>) {
    forall k1, k2 :: 0 <= k1 < k2 < |cells| ==> DrawnBefore(cells[k1].date, cells[k2].date)
  }

  /** Each cell is drawn before the next one. */
  predicate Consecutive(cells: seq<Cell>) {
    forall k :: 0 <= k < |cells| - 1 ==> DrawnBefore(cells[k].date, cells[k + 1].date)
  }

  lemma {:induction false} ConsecutiveOrder(cells: seq<Cell>)
    requires Consecutive(cells)
    ensures InDrawingOrder(cells)
  {
    if |cells| > 1 {
      var init := cells[..|cells| - 1];
      assert Consecutive(init);
      ConsecutiveOrder(init);
      forall k1, k2 | 0 <= k1 < k2 < |cells| ensures DrawnBefore(cells[k1].date, cells[k2].date) {
        if k2 < |cells| - 1 {
          assert init[k1] == cells[k1] && init[k2] == cells[k2];
        } else if k1 < |cells| - 2 {
          assert init[k1] == cells[k1] && init[|cells| - 2] == cells[|cells| - 2];
        }
      }
    }
  }

  function CellDates(cells: seq<Cell>): set<Date> {
    set c | c in cells :: c.date
  }

  /** Cells for every valid date of `year` drawn before `bound`. */
  ghost predicate Covers(cells: seq<Cell>, year: int, bound: Date) {
    forall d :: ValidDate(d) && d.year == year && DrawnBefore(d, bound) ==> d in CellDates(cells)
  }

  /** What the loops have drawn once they reach `bound`: well-placed cells
      in drawing order, all before `bound`, and every date before `bound`. */
  ghost predicate Drawn(log: Log, today: Date, cells: seq<Cell>, bound: Date) {
    (forall k :: 0 <= k < |cells| ==> CellOk(log, today, cells[k]))
    && Consecutive(cells)
    && (cells != [] ==> DrawnBefore(cells[|cells| - 1].date, bound))
    && Covers(cells, today.year, bound)
  }

  /** An impossible date such as February 30 is skipped. */
  lemma DrawSkip(log: Log, today: Date, cells: seq<Cell>, month: int, day: int)
    requires Drawn(log, today, cells, Date(today.year, month, day))
    requires !ValidDate(Date(today.year, month, day))
    ensures Drawn(log, today, cells, Date(today.year, month + 1, day))
  {
  }

  /** A real date gets its cell. */
  lemma DrawCell(log: Log, today: Date, cells: seq<Cell>, cell: Cell, month: int, day: int)
    requires Drawn(log, today, cells, Date(today.year, month, day))
    requires cell.date == Date(today.year, month, day)
    requires CellOk(log, today, cell)
    ensures Drawn(log, today, cells + [cell], Date(today.year, month + 1, day))
  {
    CoverStep(cells, cell, today.year, month, day);
    AppendKeeps(log, today, cells, cell);
  }

  lemma CoverStep(cells: seq<Cell>, cell: Cell, year: int, month: int, day: int)
    requires Covers(cells, year, Date(year, month, day))
    requires cell.date == Date(year, month, day)
    ensures Covers(cells + [cell], year, Date(year, month + 1, day))
  {
    assert CellDates(cells + [cell]) == CellDates(cells) + {cell.date};
  }

  lemma AppendKeeps(log: Log, today: Date, cells: seq<Cell>, cell: Cell)
    requires forall k :: 0 <= k < |cells| ==> CellOk(log, today, cells[k])
    requires Consecutive(cells)
    requires CellOk(log, today, cell)
    requires cells != [] ==> DrawnBefore(cells[|cells| - 1].date, cell.date)
    ensures forall k :: 0 <= k < |cells| + 1 ==> CellOk(log, today, (cells + [cell])[k])
    ensures Consecutive(cells + [cell])
  {
    ConsecutiveAppend(cells, cell);
    forall k | 0 <= k < |cells| + 1 ensures CellOk(log, today, (cells + [cell])[k]) {
      if k < |cells| {
        assert (cells + [cell])[k] == cells[k];
      }
    }
  }

  lemma ConsecutiveAppend(cells: seq<Cell>, cell: Cell)
    requires Consecutive(cells)
    requires cells != [] ==> DrawnBefore(cells[|cells| - 1].date, cell.date)
    ensures Consecutive(cells + [cell])
  {
    assert forall k :: 0 <= k < |cells| ==> (cells + [cell])[k] == cells[k];
  }

  /** After month 12 of a day, the next day starts from month 1. */
  lemma DrawNextDay(log: Log, today: Date, cells: seq<Cell>, day: int)
    requires Drawn(log, today, cells, Date(today.year, MONTHS + 1, day))
    ensures Drawn(log, today, cells, Date(today.year, 1, day + 1))
  {
    if cells != [] {
      assert ValidDate(cells[|cells| - 1].date);
    }
  }

  /** The drawing loops: for each day 1..31 and each month, the date of this
      year is skipped when it does not exist (ValueError) and otherwise gets
      its cell. Every cell belongs to a valid date of this year, sits in its
      month's column and its day's row, and has the fill `CellFill` gives;
      the cells come in day-then-month order, so no date is drawn twice; and
      every date of this year has a cell. */
  method CalendarCells(log: Log, today: Date) returns (cells: seq<Cell>)
    requires MIN_YEAR <= today.year <= MAX_YEAR
    ensures forall k :: 0 <= k < |cells| ==> CellOk(log, today, cells[k])
    ensures InDrawingOrder(cells)
    ensures forall d :: ValidDate(d) && d.year == today.year ==> d in CellDates(cells)
  {
    var first := FirstDate(log, today);
    cells := [];
    for i := 0 to DAYS
      invariant Drawn(log, today, cells, Date(today.year, 1, i + 1))
    {
      var day := i + 1;
      for j := 0 to MONTHS
        invariant Drawn(log, today, cells, Date(today.year, j + 1, day))
      {
        var dt := Date(today.year, j + 1, day);
        if !ValidDate(dt) {
          DrawSkip(log, today, cells, j + 1, day);
          continue;
        }
        var x, y := j, DAYS - i - 1;
        var cell := Cell(x, y, dt, CellFill(log, first, today, dt));
        DrawCell(log, today, cells, cell, j + 1, day);
        cells := cells + [cell];
      }
      DrawNextDay(log, today, cells, day);
    }
    assert Covers(cells, today.year, Date(today.year, 1, DAYS + 1));
    ConsecutiveOrder(cells);
  }
}
