/** The note form (poc-app/src/components/EntryForm.tsx): the month calendar
    the date picker shows, choosing a date in it, moving between months,
    attaching and removing images, and submitting the draft. */
module Forms {
  import opened Util
  import opened Calendar
  import opened Types
  import opened Dates

  // ---------------------------------------------------------------------------
  // calendarCells
  // ---------------------------------------------------------------------------

  /** One day of the month grid. */
  datatype Cell = Cell(dateISO: string, dayLabel: int, inMonth: bool, isToday: bool, isSelected: bool)

  /** `new Date(y, m, 1).getDay()`: the weekday column of the first of the month. */
  function StartDay(y: int, m: int): (w: int)
    requires 0 <= m < 12
    ensures 0 <= w < 7
  {
    DayOfWeek(Civil(y, m, 1))
  }

  /** The date shown in grid position `k` (row-major, Sunday first): day
      `1 + k - startDay` of the viewed month, normalised as the Date
      constructor does, so earlier positions fall in the previous month and
      later ones in the next. */
  function GridDate(y: int, m: int, k: int): Civil
    requires 0 <= m < 12
  {
    MakeDate(y, m, 1 + k - StartDay(y, m))
  }

  /** The cell `calendarCells` pushes for the date `g`. */
  function CellFor(g: Civil, inMonth: bool, date: string, today: Civil): Cell
  {
    Cell(ToLocalISODate(g), g.day, inMonth, g == today, ToLocalISODate(g) == date)
  }

  /** The cell at grid position `k` for the view `(y, m)`, the selected date
      text and today's date: positions `startDay` to `startDay + daysInMonth - 1`
      are the viewed month's. */
  function GridCell(y: int, m: int, date: string, today: Civil, k: int): Cell
    requires 0 <= m < 12
  {
    CellFor(GridDate(y, m, k), StartDay(y, m) <= k < StartDay(y, m) + DaysInMonth(y, m), date, today)
  }

  /** The cells for the dates `ds` in grid order, those at positions `sd` to
      `sd + dim - 1` marked as in the month. */
  function CellsOf(ds: seq<Civil>, sd: int, dim: int, date: string, today: Civil): (r: seq<Cell>)
    ensures |r| == |ds|
  {
    if ds == [] then []
    else CellsOf(ds[..|ds| - 1], sd, dim, date, today) + [CellFor(ds[|ds| - 1], sd <= |ds| - 1 < sd + dim, date, today)]
  }

  /** Cell `k` is the cell for date `k`. */
  lemma {:induction false} CellsOfAt(ds: seq<Civil>, sd: int, dim: int, date: string, today: Civil, k: int)
    requires 0 <= k < |ds|
    ensures CellsOf(ds, sd, dim, date, today)[k] == CellFor(ds[k], sd <= k < sd + dim, date, today)
  {
    if k < |ds| - 1 {
      assert ds[..|ds| - 1][k] == ds[k];
      CellsOfAt(ds[..|ds| - 1], sd, dim, date, today, k);
    }
  }

  /** One more date adds its cell at the end. */
  lemma CellsOfSnoc(ds: seq<Civil>, g: Civil, sd: int, dim: int, date: string, today: Civil)
    ensures CellsOf(ds + [g], sd, dim, date, today)
      == CellsOf(ds, sd, dim, date, today) + [CellFor(g, sd <= |ds| < sd + dim, date, today)]
  {
    assert (ds + [g])[..|ds|] == ds;
  }

  /** The dates of the growing prefix: one more position adds its date. */
  lemma PrefixStep(dates: seq<Civil>, n: nat)
    requires n < |dates|
    ensures dates[..n + 1] == dates[..n] + [dates[n]]
  {
  }

  /** `calendarCells`: the leading days of the previous month, the days of
      the month, then days of the next month until the grid is 6 rows of 7,
      chunked into rows. */
  method CalendarCells(viewYear: int, viewMonth: int, date: string, today: Civil) returns (weeks: seq<seq<Cell>>)
    requires 0 <= viewMonth < 12
    ensures |weeks| == 6
    ensures forall w :: 0 <= w < 6 ==> |weeks[w]| == 7
    ensures forall w, d :: 0 <= w < 6 && 0 <= d < 7 ==>
      weeks[w][d] == GridCell(viewYear, viewMonth, date, today, 7 * w + d)
  {
    var startDay, daysInMonth, prevMonthDays := MonthShape(viewYear, viewMonth);
    ghost var dates := GridDatesExist(viewYear, viewMonth);
    var cells := LeadingCells(viewYear, viewMonth, startDay, daysInMonth, prevMonthDays, date, today, dates);
    cells := MonthCells(viewYear, viewMonth, startDay, daysInMonth, date, today, dates, cells);
    cells := TrailingCells(viewYear, viewMonth, startDay, daysInMonth, date, today, dates, cells);
    GridCellsAt(viewYear, viewMonth, date, today, dates, cells);
    weeks := Chunk(cells);
    WeeksOfGrid(viewYear, viewMonth, date, today, cells, weeks);
  }

  /** Rows of 7 consecutive grid cells are the grid, row by row. */
  lemma WeeksOfGrid(y: int, m: int, date: string, today: Civil, cells: seq<Cell>, weeks: seq<seq<Cell>>)
    requires 0 <= m < 12 && |cells| == 42 && |weeks| == 6
    requires forall k :: 0 <= k < 42 ==> cells[k] == GridCell(y, m, date, today, k)
    requires forall w :: 0 <= w < 6 ==> weeks[w] == cells[7 * w..7 * w + 7]
    requires forall w, d :: 0 <= w < 6 && 0 <= d < 7 ==> |weeks[w]| == 7 && weeks[w][d] == cells[7 * w + d]
    ensures forall w :: 0 <= w < 6 ==> |weeks[w]| == 7
    ensures forall w, d :: 0 <= w < 6 && 0 <= d < 7 ==>
      weeks[w][d] == GridCell(y, m, date, today, 7 * w + d)
  {
  }

  /** The last loop of `calendarCells`: consecutive slices of 7 cells. */
  method Chunk(cells: seq<Cell>) returns (weeks: seq<seq<Cell>>)
    requires |cells| == 42
    ensures |weeks| == 6
    ensures forall w :: 0 <= w < 6 ==> weeks[w] == cells[7 * w..7 * w + 7]
    ensures forall w, d :: 0 <= w < 6 && 0 <= d < 7 ==> |weeks[w]| == 7 && weeks[w][d] == cells[7 * w + d]
  {
    weeks := [];
    var i := 0;
    while i < |cells|
      invariant 0 <= i <= 42 && i % 7 == 0
      invariant |weeks| == i / 7
      invariant forall w :: 0 <= w < |weeks| ==> weeks[w] == cells[7 * w..7 * w + 7]
    {
      weeks := weeks + [cells[i..i + 7]];
      i := i + 7;
    }
  }

  /** The dates of the 42 grid positions. */
  lemma GridDatesExist(y: int, m: int) returns (dates: seq<Civil>)
    requires 0 <= m < 12
    ensures GridDates(dates, y, m, StartDay(y, m))
  {
    dates := seq(42, k => GridDate(y, m, k));
    forall k | 0 <= k < 42
      ensures dates[k] == GridDay(y, m, StartDay(y, m), k)
    {
    }
  }

  /** The 42 cells built from the grid's dates are the grid's cells. */
  lemma GridCellsAt(y: int, m: int, date: string, today: Civil, dates: seq<Civil>, cells: seq<Cell>)
    requires 0 <= m < 12 && GridDates(dates, y, m, StartDay(y, m))
    requires cells == CellsOf(dates[..42], StartDay(y, m), DaysInMonth(y, m), date, today)
    ensures |cells| == 42
    ensures forall k :: 0 <= k < 42 ==> cells[k] == GridCell(y, m, date, today, k)
  {
    assert dates[..42] == dates;
    forall k | 0 <= k < 42
      ensures cells[k] == GridCell(y, m, date, today, k)
    {
      GridCellOf(y, m, date, today, dates, k);
    }
  }

  lemma GridCellOf(y: int, m: int, date: string, today: Civil, dates: seq<Civil>, k: int)
    requires 0 <= m < 12 && GridDates(dates, y, m, StartDay(y, m)) && 0 <= k < 42
    ensures CellsOf(dates, StartDay(y, m), DaysInMonth(y, m), date, today)[k] == GridCell(y, m, date, today, k)
  {
    assert dates[k] == GridDay(y, m, StartDay(y, m), k);
    CellsOfAt(dates, StartDay(y, m), DaysInMonth(y, m), date, today, k);
  }

  /** What `calendarCells` reads off the Date constructor: the weekday of the
      first, the length of the month and the length of the previous month. */
  method MonthShape(viewYear: int, viewMonth: int) returns (startDay: int, daysInMonth: int, prevMonthDays: int)
    requires 0 <= viewMonth < 12
    ensures startDay == StartDay(viewYear, viewMonth)
    ensures daysInMonth == DaysInMonth(viewYear, viewMonth)
    ensures prevMonthDays == DaysInMonth(PrevMonth(viewYear, viewMonth).0, PrevMonth(viewYear, viewMonth).1)
  {
    startDay := DayOfWeek(MakeDate(viewYear, viewMonth, 1));
    daysInMonth := MakeDate(viewYear, viewMonth + 1, 0).day;
    prevMonthDays := MakeDate(viewYear, viewMonth, 0).day;
    MonthFacts(viewYear, viewMonth);
  }

  lemma MonthFacts(y: int, m: int)
    requires 0 <= m < 12
    ensures DayOfWeek(MakeDate(y, m, 1)) == StartDay(y, m)
    ensures MakeDate(y, m + 1, 0).day == DaysInMonth(y, m)
    ensures MakeDate(y, m, 0).day == DaysInMonth(PrevMonth(y, m).0, PrevMonth(y, m).1)
  {
    MakeDateValid(Civil(y, m, 1));
    MakeDateLastOfMonth(y, m);
    LastOfPrevMonth(y, m);
  }

  /** Day 0 of month `m` is the last day of the previous month. */
  lemma LastOfPrevMonth(y: int, m: int)
    requires 0 <= m < 12
    ensures MakeDate(y, m, 0) == Civil(PrevMonth(y, m).0, PrevMonth(y, m).1, DaysInMonth(PrevMonth(y, m).0, PrevMonth(y, m).1))
  {
    var py, pm := PrevMonth(y, m).0, PrevMonth(y, m).1;
    MonthBaseSame(y, m);
    MonthBasePrev(y, m);
    var last := Civil(py, pm, DaysInMonth(py, pm));
    MonthStart(last);
    DayNumberInjective(MakeDate(y, m, 0), last);
  }

  /** The grid's dates: position `k` is day `1 + k - startDay` of the view. */
  ghost predicate GridDates(dates: seq<Civil>, y: int, m: int, startDay: int)
  {
    |dates| == 42 && forall k {:trigger GridDay(y, m, startDay, k)} :: 0 <= k < 42 ==> dates[k] == GridDay(y, m, startDay, k)
  }

  /** Day `1 + k - startDay` of the view, the date of grid position `k`. */
  ghost function GridDay(y: int, m: int, startDay: int, k: int): Civil
  {
    MakeDate(y, m, 1 + k - startDay)
  }

  /** The first loop: for `i` from `startDay - 1` down to 0, day
      `prevMonthDays - i` of the previous month. */
  method LeadingCells(y: int, m: int, startDay: int, daysInMonth: int, prevMonthDays: int, date: string, today: Civil,
                      ghost dates: seq<Civil>)
    returns (cells: seq<Cell>)
    requires 0 <= m < 12 && 0 <= startDay < 7 && GridDates(dates, y, m, startDay)
    requires prevMonthDays == DaysInMonth(PrevMonth(y, m).0, PrevMonth(y, m).1)
    ensures cells == CellsOf(dates[..startDay], startDay, daysInMonth, date, today)
  {
    cells := [];
    for i := startDay downto 0
      invariant cells == CellsOf(dates[..startDay - i], startDay, daysInMonth, date, today)
    {
      cells := PushLeading(y, m, startDay, daysInMonth, prevMonthDays, date, today, dates, i, cells);
    }
  }

  /** One pass of the first loop: the cell for day `prevMonthDays - i` of
      the previous month. */
  method PushLeading(y: int, m: int, startDay: int, daysInMonth: int, prevMonthDays: int, date: string, today: Civil,
                     ghost dates: seq<Civil>, i: int, cellsIn: seq<Cell>)
    returns (cells: seq<Cell>)
    requires 0 <= m < 12 && 0 <= i < startDay < 7 && GridDates(dates, y, m, startDay)
    requires prevMonthDays == DaysInMonth(PrevMonth(y, m).0, PrevMonth(y, m).1)
    requires cellsIn == CellsOf(dates[..startDay - 1 - i], startDay, daysInMonth, date, today)
    ensures cells == CellsOf(dates[..startDay - i], startDay, daysInMonth, date, today)
  {
    var d := MakeDate(y, m - 1, prevMonthDays - i);
    var iso := ToLocalISODate(d);
    LeadingStep(y, m, startDay, daysInMonth, prevMonthDays, date, today, dates, i);
    cells := cellsIn + [Cell(iso, d.day, false, d == today, iso == date)];
  }

  /** The cell the first loop pushes for `i` is the grid's cell `startDay - 1 - i`. */
  lemma LeadingStep(y: int, m: int, sd: int, dim: int, p: int, date: string, today: Civil, dates: seq<Civil>, i: int)
    requires 0 <= m < 12 && 0 <= i < sd < 7 && GridDates(dates, y, m, sd)
    requires p == DaysInMonth(PrevMonth(y, m).0, PrevMonth(y, m).1)
    ensures var d := MakeDate(y, m - 1, p - i);
      CellsOf(dates[..sd - i], sd, dim, date, today)
      == CellsOf(dates[..sd - 1 - i], sd, dim, date, today) + [Cell(ToLocalISODate(d), d.day, false, d == today, ToLocalISODate(d) == date)]
  {
    var n := sd - 1 - i;
    assert dates[n] == GridDay(y, m, sd, n);
    LeadingDate(y, m, sd, p, i);
    PrefixStep(dates, n);
    CellsOfSnoc(dates[..n], dates[n], sd, dim, date, today);
  }

  /** Day `prevMonthDays - i` of the previous month is day `-i` of this one. */
  lemma LeadingDate(y: int, m: int, sd: int, p: int, i: int)
    requires 0 <= m < 12
    requires p == DaysInMonth(PrevMonth(y, m).0, PrevMonth(y, m).1)
    ensures MakeDate(y, m - 1, p - i) == MakeDate(y, m, 1 + (sd - 1 - i) - sd)
  {
    assert 1 + (sd - 1 - i) - sd == -i;
    MonthBaseSame(y, m);
    MonthBasePrev(y, m);
    DayNumberInjective(MakeDate(y, m - 1, p - i), MakeDate(y, m, -i));
  }

  /** The second loop: days 1 to `daysInMonth` of the viewed month. */
  method MonthCells(y: int, m: int, startDay: int, daysInMonth: int, date: string, today: Civil,
                    ghost dates: seq<Civil>, leading: seq<Cell>)
    returns (cells: seq<Cell>)
    requires 0 <= m < 12 && daysInMonth == DaysInMonth(y, m)
    requires 0 <= startDay < 7 && GridDates(dates, y, m, startDay)
    requires leading == CellsOf(dates[..startDay], startDay, daysInMonth, date, today)
    ensures cells == CellsOf(dates[..startDay + daysInMonth], startDay, daysInMonth, date, today)
  {
    cells := leading;
    for i := 1 to daysInMonth + 1
      invariant cells == CellsOf(dates[..startDay + i - 1], startDay, daysInMonth, date, today)
    {
      cells := PushMonth(y, m, startDay, daysInMonth, date, today, dates, i, cells);
    }
  }

  /** One pass of the second loop: the cell for day `i`, labelled `i`. */
  method PushMonth(y: int, m: int, startDay: int, daysInMonth: int, date: string, today: Civil,
                   ghost dates: seq<Civil>, i: int, cellsIn: seq<Cell>)
    returns (cells: seq<Cell>)
    requires 0 <= m < 12 && daysInMonth == DaysInMonth(y, m) && 1 <= i <= daysInMonth
    requires 0 <= startDay < 7 && GridDates(dates, y, m, startDay)
    requires cellsIn == CellsOf(dates[..startDay + i - 1], startDay, daysInMonth, date, today)
    ensures cells == CellsOf(dates[..startDay + i], startDay, daysInMonth, date, today)
  {
    var d := MakeDate(y, m, i);
    var iso := ToLocalISODate(d);
    MonthStep(y, m, startDay, daysInMonth, date, today, dates, i);
    cells := cellsIn + [Cell(iso, i, true, d == today, iso == date)];
  }

  /** The cell the second loop pushes for `i` is the grid's cell `startDay + i - 1`. */
  lemma MonthStep(y: int, m: int, sd: int, dim: int, date: string, today: Civil, dates: seq<Civil>, i: int)
    requires 0 <= m < 12 && dim == DaysInMonth(y, m) && 1 <= i <= dim && 0 <= sd < 7 && GridDates(dates, y, m, sd)
    ensures var d := MakeDate(y, m, i);
      CellsOf(dates[..sd + i], sd, dim, date, today)
      == CellsOf(dates[..sd + i - 1], sd, dim, date, today) + [Cell(ToLocalISODate(d), i, true, d == today, ToLocalISODate(d) == date)]
  {
    var n := sd + i - 1;
    assert dates[n] == GridDay(y, m, sd, n);
    MonthDate(y, m, sd, i);
    PrefixStep(dates, n);
    CellsOfSnoc(dates[..n], dates[n], sd, dim, date, today);
  }

  /** Day `i` of the month sits at position `startDay + i - 1` and is labelled `i`. */
  lemma MonthDate(y: int, m: int, sd: int, i: int)
    requires 0 <= m < 12 && 1 <= i <= DaysInMonth(y, m)
    ensures MakeDate(y, m, 1 + (sd + i - 1) - sd) == MakeDate(y, m, i)
    ensures MakeDate(y, m, i).day == i
  {
    assert 1 + (sd + i - 1) - sd == i;
    MakeDateValid(Civil(y, m, i));
  }

  /** The `while` loop: days 1, 2, … of the next month until the number of
      cells is a multiple of 7 and at least 42. */
  method TrailingCells(y: int, m: int, startDay: int, daysInMonth: int, date: string, today: Civil,
                       ghost dates: seq<Civil>, cellsIn: seq<Cell>)
    returns (cells: seq<Cell>)
    requires 0 <= m < 12 && 0 <= startDay < 7 && daysInMonth == DaysInMonth(y, m)
    requires GridDates(dates, y, m, startDay)
    requires cellsIn == CellsOf(dates[..startDay + daysInMonth], startDay, daysInMonth, date, today)
    ensures cells == CellsOf(dates[..42], startDay, daysInMonth, date, today)
  {
    cells := cellsIn;
    while |cells| % 7 != 0 || |cells| < 42
      invariant startDay + daysInMonth <= |cells| <= 42
      invariant cells == CellsOf(dates[..|cells|], startDay, daysInMonth, date, today)
      decreases 42 - |cells|
    {
      GridNotFull(|cells|);
      cells := PushTrailing(y, m, startDay, daysInMonth, date, today, dates, cells);
    }
    GridFull(|cells|);
  }

  /** One pass of the `while` loop: the cell for day `offset + 1` of the
      next month, where `offset` counts the cells already past the month. */
  method PushTrailing(y: int, m: int, startDay: int, daysInMonth: int, date: string, today: Civil,
                      ghost dates: seq<Civil>, cellsIn: seq<Cell>)
    returns (cells: seq<Cell>)
    requires 0 <= m < 12 && 0 <= startDay < 7 && daysInMonth == DaysInMonth(y, m)
    requires GridDates(dates, y, m, startDay) && startDay + daysInMonth <= |cellsIn| < 42
    requires cellsIn == CellsOf(dates[..|cellsIn|], startDay, daysInMonth, date, today)
    ensures cells == CellsOf(dates[..|cellsIn| + 1], startDay, daysInMonth, date, today)
  {
    var offset := |cellsIn| - (startDay + daysInMonth);
    var d := MakeDate(y, m + 1, offset + 1);
    var iso := ToLocalISODate(d);
    TrailingStep(y, m, startDay, daysInMonth, date, today, dates, |cellsIn|, offset);
    cells := cellsIn + [Cell(iso, d.day, false, d == today, iso == date)];
  }

  /** The `while` loop runs while the grid has fewer than 42 cells. */
  lemma GridNotFull(n: int)
    requires n <= 42 && (n % 7 != 0 || n < 42)
    ensures n < 42
  {
  }

  /** The `while` loop stops at exactly 42 cells. */
  lemma GridFull(n: int)
    requires n <= 42 && !(n % 7 != 0 || n < 42)
    ensures n == 42
  {
  }

  /** The cell the `while` loop pushes at position `n` is the grid's cell `n`. */
  lemma TrailingStep(y: int, m: int, sd: int, dim: int, date: string, today: Civil, dates: seq<Civil>, n: int, offset: int)
    requires 0 <= m < 12 && dim == DaysInMonth(y, m) && 0 <= sd < 7 && GridDates(dates, y, m, sd)
    requires sd + dim <= n < 42 && offset == n - (sd + dim)
    ensures var d := MakeDate(y, m + 1, offset + 1);
      CellsOf(dates[..n + 1], sd, dim, date, today)
      == CellsOf(dates[..n], sd, dim, date, today) + [Cell(ToLocalISODate(d), d.day, false, d == today, ToLocalISODate(d) == date)]
  {
    assert dates[n] == GridDay(y, m, sd, n);
    TrailingDate(y, m, sd, dim, n);
    PrefixStep(dates, n);
    CellsOfSnoc(dates[..n], dates[n], sd, dim, date, today);
  }

  /** Day `offset + 1` of the next month is day `1 + k - startDay` of this one. */
  lemma TrailingDate(y: int, m: int, sd: int, dim: int, k: int)
    requires 0 <= m < 12 && dim == DaysInMonth(y, m)
    ensures MakeDate(y, m + 1, k - (sd + dim) + 1) == MakeDate(y, m, 1 + k - sd)
  {
    MonthBaseSame(y, m);
    MonthBaseNext(y, m);
    DayNumberInjective(MakeDate(y, m + 1, k - (sd + dim) + 1), MakeDate(y, m, 1 + k - sd));
  }

  // ---------------------------------------------------------------------------
  // What the grid shows
  // ---------------------------------------------------------------------------

  /** Grid position `k` is `k - startDay` days after the first of the month. */
  lemma GridDayNumber(y: int, m: int, k: int)
    requires 0 <= m < 12
    ensures DayNumber(GridDate(y, m, k)) == DayNumber(Civil(y, m, 1)) + k - StartDay(y, m)
  {
    MonthBaseSame(y, m);
  }

  /** A valid date with the day number of grid position `k` is its date. */
  lemma GridDateIs(y: int, m: int, k: int, c: Civil)
    requires 0 <= m < 12 && Valid(c)
    requires DayNumber(c) == DayNumber(Civil(y, m, 1)) + k - StartDay(y, m)
    ensures GridDate(y, m, k) == c
  {
    GridDayNumber(y, m, k);
    DayNumberInjective(GridDate(y, m, k), c);
  }

  /** The first `startDay` positions are the last days of the previous month. */
  lemma GridDateLeading(y: int, m: int, k: int)
    requires 0 <= m < 12 && 0 <= k < StartDay(y, m)
    ensures var (py, pm) := PrevMonth(y, m);
      GridDate(y, m, k) == Civil(py, pm, DaysInMonth(py, pm) - (StartDay(y, m) - 1 - k))
  {
    var py, pm := PrevMonth(y, m).0, PrevMonth(y, m).1;
    var c := Civil(py, pm, DaysInMonth(py, pm) - (StartDay(y, m) - 1 - k));
    MonthBaseSame(y, m);
    MonthBasePrev(y, m);
    MonthStart(c);
    GridDateIs(y, m, k, c);
  }

  /** The next `daysInMonth` positions are the days of the month. */
  lemma GridDateInMonth(y: int, m: int, k: int)
    requires 0 <= m < 12 && StartDay(y, m) <= k < StartDay(y, m) + DaysInMonth(y, m)
    ensures GridDate(y, m, k) == Civil(y, m, k - StartDay(y, m) + 1)
  {
    var c := Civil(y, m, k - StartDay(y, m) + 1);
    MonthStart(c);
    GridDateIs(y, m, k, c);
  }

  /** The remaining positions are the first days of the next month. */
  lemma GridDateTrailing(y: int, m: int, k: int)
    requires 0 <= m < 12 && StartDay(y, m) + DaysInMonth(y, m) <= k < 42
    ensures var (ny, nm) := NextMonth(y, m);
      GridDate(y, m, k) == Civil(ny, nm, k - StartDay(y, m) - DaysInMonth(y, m) + 1)
  {
    var ny, nm := NextMonth(y, m).0, NextMonth(y, m).1;
    var c := Civil(ny, nm, k - StartDay(y, m) - DaysInMonth(y, m) + 1);
    MonthBaseSame(y, m);
    MonthBaseNext(y, m);
    MonthStart(c);
    GridDateIs(y, m, k, c);
  }

  /** The first `startDay` cells are the last days of the previous month,
      ascending and ending with its last day; then the month's days 1 to
      `daysInMonth` in order; then days 1, 2, … of the next month. Only the
      middle stretch is marked as in the month. */
  lemma GridLabels(y: int, m: int, date: string, today: Civil, k: int)
    requires 0 <= m < 12 && 0 <= k < 42
    ensures var c, sd, dim := GridCell(y, m, date, today, k), StartDay(y, m), DaysInMonth(y, m);
      var prevDays := DaysInMonth(PrevMonth(y, m).0, PrevMonth(y, m).1);
      && (k < sd ==> !c.inMonth && c.dayLabel == prevDays - (sd - 1 - k))
      && (sd <= k < sd + dim ==> c.inMonth && c.dayLabel == k - sd + 1)
      && (sd + dim <= k ==> !c.inMonth && c.dayLabel == k - sd - dim + 1)
  {
    var sd, dim := StartDay(y, m), DaysInMonth(y, m);
    if k < sd {
      GridDateLeading(y, m, k);
    } else if k < sd + dim {
      GridDateInMonth(y, m, k);
    } else {
      GridDateTrailing(y, m, k);
    }
  }

  /** Consecutive positions show consecutive days, and each column is one
      weekday, Sunday first. */
  lemma GridConsecutive(y: int, m: int, k: int)
    requires 0 <= m < 12 && 0 <= k
    ensures DayNumber(GridDate(y, m, k + 1)) == DayNumber(GridDate(y, m, k)) + 1
    ensures DayOfWeek(GridDate(y, m, k)) == k % 7
  {
    GridDayNumber(y, m, k);
    GridDayNumber(y, m, k + 1);
    DayOfWeekApart(Civil(y, m, 1), GridDate(y, m, k), k - StartDay(y, m));
  }

  /** At most one cell is today, and at most one is selected (for four-digit
      years, where the rendered text determines the date). */
  lemma GridMarksUnique(y: int, m: int, date: string, today: Civil, i: int, j: int)
    requires 0 <= m < 12 && 0 <= i < 42 && 0 <= j < 42
    ensures GridCell(y, m, date, today, i).isToday && GridCell(y, m, date, today, j).isToday ==> i == j
    ensures (1001 <= y <= 9998 && GridCell(y, m, date, today, i).isSelected &&
             GridCell(y, m, date, today, j).isSelected) ==> i == j
  {
    var gi, gj := GridDate(y, m, i), GridDate(y, m, j);
    MonthBaseSame(y, m);
    if 1001 <= y <= 9998 {
      var first := Civil(y, m, 1);
      YearNear(first, gi);
      YearNear(first, gj);
      ToLocalISODateInjective(gi, gj);
    }
  }

  /** A date's own view shows it in the month, selected. */
  lemma SelectedDateShown(c: Civil, today: Civil)
    requires Valid(c) && 1000 <= c.year <= 9999
    ensures var k := StartDay(c.year, c.month) + c.day - 1;
      0 <= k < 42 &&
      GridCell(c.year, c.month, ToLocalISODate(c), today, k).inMonth &&
      GridCell(c.year, c.month, ToLocalISODate(c), today, k).isSelected
  {
    var k := StartDay(c.year, c.month) + c.day - 1;
    MonthBaseSame(c.year, c.month);
    MonthStart(c);
    DayNumberInjective(GridDate(c.year, c.month, k), c);
  }

  /** The date a date-only ISO text names, when the grid of its own month
      is shown: that day's cell is in the month and selected (four-digit
      years, whose text is the date's rendering). */
  lemma ParsedDateShown(iso: string, today: Civil)
    requires ParseISO(iso).Some? && 1000 <= ParseISO(iso).value.year
    ensures var c := ParseISO(iso).value;
      var k := StartDay(c.year, c.month) + c.day - 1;
      0 <= k < 42 &&
      GridCell(c.year, c.month, iso, today, k).inMonth &&
      GridCell(c.year, c.month, iso, today, k).isSelected
  {
    var c := ParseISO(iso).value;
    ParseISOCanonical(iso, c);
    SelectedDateShown(c, today);
  }

  /** `handleToday` with today's rendering reads back today, and today's
      own month then shows today's cell as today and as selected. */
  lemma TodayShown(now: Civil)
    requires Valid(now) && 1000 <= now.year <= 9999
    ensures ParseISO(ToLocalISODate(now)) == Some(now)
    ensures var k := StartDay(now.year, now.month) + now.day - 1;
      0 <= k < 42 &&
      GridCell(now.year, now.month, ToLocalISODate(now), now, k).isSelected &&
      GridCell(now.year, now.month, ToLocalISODate(now), now, k).isToday
  {
    var k := StartDay(now.year, now.month) + now.day - 1;
    ParseToLocalISODate(now);
    SelectedDateShown(now, now);
    MonthBaseSame(now.year, now.month);
    MonthStart(now);
    DayNumberInjective(GridDate(now.year, now.month, k), now);
  }

  // ---------------------------------------------------------------------------
  // Month navigation
  // ---------------------------------------------------------------------------

  /** `new Date(y, m - 1, 1)`: the first of the previous month. */
  lemma PrevMonthFirst(y: int, m: int)
    requires 0 <= m < 12
    ensures MakeDate(y, m - 1, 1) == Civil(PrevMonth(y, m).0, PrevMonth(y, m).1, 1)
  {
    MonthBasePrev(y, m);
    DayNumberInjective(MakeDate(y, m - 1, 1), Civil(PrevMonth(y, m).0, PrevMonth(y, m).1, 1));
  }

  /** `new Date(y, m + 1, 1)`: the first of the next month. */
  lemma NextMonthFirstDay(y: int, m: int)
    requires 0 <= m < 12
    ensures MakeDate(y, m + 1, 1) == Civil(NextMonth(y, m).0, NextMonth(y, m).1, 1)
  {
    MonthBaseNext(y, m);
    DayNumberInjective(MakeDate(y, m + 1, 1), Civil(NextMonth(y, m).0, NextMonth(y, m).1, 1));
  }

  /** Going forward a month and back again, or back and forward, returns to
      the month shown before. */
  lemma MonthNavigationRoundTrip(y: int, m: int)
    requires 0 <= m < 12
    ensures var (ny, nm) := NextMonth(y, m); PrevMonth(ny, nm) == (y, m)
    ensures var (py, pm) := PrevMonth(y, m); NextMonth(py, pm) == (y, m)
  {
  }

  /** Going forward a month moves the first of the shown month ahead by the
      length of the month, and going back by the length of the previous one. */
  lemma MonthNavigationDistance(y: int, m: int)
    requires 0 <= m < 12
    ensures var (ny, nm) := NextMonth(y, m);
      DayNumber(Civil(ny, nm, 1)) == DayNumber(Civil(y, m, 1)) + DaysInMonth(y, m)
    ensures var (py, pm) := PrevMonth(y, m);
      DayNumber(Civil(py, pm, 1)) + DaysInMonth(py, pm) == DayNumber(Civil(y, m, 1))
  {
    MonthBasePrev(y, m);
    MonthBaseNext(y, m);
  }

  // ---------------------------------------------------------------------------
  // Images: readImages, appendImages, handleRemoveImage
  // ---------------------------------------------------------------------------

  /** A dropped or chosen file: its name, its MIME type (empty when the
      browser does not know it) and the `data:` URL `readAsDataURL` yields. */
  datatype File = File(name: string, fileType: string, dataUrl: string)

  /** The files `readImages` reads: an `image/` type, or an unknown one. */
  predicate IsReadable(f: File)
  {
    "image/" <= f.fileType || f.fileType == ""
  }

  const OctetStream: string := "application/octet-stream"

  /** `file.type || "application/octet-stream"`. */
  function MimeOf(fileType: string): string
  {
    if fileType == "" then OctetStream else fileType
  }

  /** The image read from a file under a freshly generated id. */
  function ImageOf(f: File, id: string): EntryImage
  {
    EntryImage(id, MimeOf(f.fileType), f.dataUrl, Some(f.name))
  }

  /** `readImages`: the readable files, in order, each read into an image;
      `ids` are the values `generateId` returns, one per readable file. */
  function ReadImages(files: seq<File>, ids: seq<string>): (r: seq<EntryImage>)
    requires |ids| == |Filter(files, IsReadable)|
    ensures |r| == |Filter(files, IsReadable)|
  {
    var readable := Filter(files, IsReadable);
    seq(|readable|, i requires 0 <= i < |readable| => ImageOf(readable[i], ids[i]))
  }

  /** Image `i` comes from the `i`-th readable file: it carries that file's
      name and contents and the `i`-th id, and its type is the file's
      `image/` type or, for a file of unknown type, `application/octet-stream`. */
  lemma ReadImagesAt(files: seq<File>, ids: seq<string>, i: int)
    requires |ids| == |Filter(files, IsReadable)| && 0 <= i < |ids|
    ensures var f, img := Filter(files, IsReadable)[i], ReadImages(files, ids)[i];
      && img.id == ids[i] && img.name == Some(f.name) && img.dataUrl == f.dataUrl
      && (if f.fileType == "" then img.mime == OctetStream else img.mime == f.fileType && "image/" <= img.mime)
  {
  }

  /** Nothing is read exactly when no file is an image or of unknown type;
      every readable file is read. */
  lemma ReadImagesCount(files: seq<File>, ids: seq<string>)
    requires |ids| == |Filter(files, IsReadable)|
    ensures ReadImages(files, ids) == [] <==> forall k :: 0 <= k < |files| ==> !IsReadable(files[k])
    ensures (forall k :: 0 <= k < |files| ==> IsReadable(files[k])) ==> |ReadImages(files, ids)| == |files|
  {
    if forall k :: 0 <= k < |files| ==> IsReadable(files[k]) {
      FilterAll(files, IsReadable);
    }
  }

  /** The images an upload keeps: those with another id. */
  function ImageIdDiffers(id: string): EntryImage -> bool
  {
    (img: EntryImage) => img.id != id
  }

  /** Removing an id keeps every other image, as often as it occurred and in
      its order, and drops every image with that id. */
  lemma RemoveImageExact(images: seq<EntryImage>, id: string, img: EntryImage)
    ensures multiset(Filter(images, ImageIdDiffers(id)))[img] == if img.id == id then 0 else multiset(images)[img]
    ensures forall a, b :: a + b == images ==>
      Filter(images, ImageIdDiffers(id)) == Filter(a, ImageIdDiffers(id)) + Filter(b, ImageIdDiffers(id))
  {
    FilterMultiset(images, ImageIdDiffers(id), img);
    forall a, b | a + b == images
      ensures Filter(images, ImageIdDiffers(id)) == Filter(a, ImageIdDiffers(id)) + Filter(b, ImageIdDiffers(id))
    {
      FilterConcat(a, b, ImageIdDiffers(id));
    }
  }

  /** Removing an id no image carries changes nothing. */
  lemma RemoveAbsentImage(images: seq<EntryImage>, id: string)
    requires forall k :: 0 <= k < |images| ==> images[k].id != id
    ensures Filter(images, ImageIdDiffers(id)) == images
  {
    FilterAll(images, ImageIdDiffers(id));
  }

  /** Removing an image added by an upload, whose id no other image carries,
      gives back the images as they were before, bar that one. */
  lemma RemoveAfterAppend(images: seq<EntryImage>, added: seq<EntryImage>, id: string)
    requires forall k :: 0 <= k < |images| ==> images[k].id != id
    ensures Filter(images + added, ImageIdDiffers(id)) == images + Filter(added, ImageIdDiffers(id))
  {
    FilterConcat(images, added, ImageIdDiffers(id));
    RemoveAbsentImage(images, id);
  }

  // ---------------------------------------------------------------------------
  // The weekRange effect
  // ---------------------------------------------------------------------------

  /** The date the week effect leaves: a new note whose date lies outside
      the shown week moves to the week's Monday. */
  function WeekSyncedDate(editing: bool, date: string, range: WeekRange): (r: string)
    ensures r == date || r == range.weekStart
  {
    if !editing && !IsDateInRange(date, range) then range.weekStart else date
  }

  /** For the range of a real week, a new note's date lies in the week once
      the effect has run, and running it again changes nothing, so the
      effect settles after one step. */
  lemma WeekSyncedDateSettles(base: Civil, date: string)
    requires Valid(base) && 1001 <= base.year <= 9998
    ensures IsDateInRange(WeekSyncedDate(false, date, GetWeekRange(base)), GetWeekRange(base))
    ensures var once := WeekSyncedDate(false, date, GetWeekRange(base));
      WeekSyncedDate(false, once, GetWeekRange(base)) == once
  {
    WeekRangeEndpoints(base);
  }

  // ---------------------------------------------------------------------------
  // The form's state and handlers
  // ---------------------------------------------------------------------------

  /** `new Date(iso)` read back with `getFullYear` and `getMonth`, for a
      date-only ISO text that names a real day. */
  method MonthOf(iso: string) returns (year: int, month: int)
    requires ParseISO(iso).Some?
    ensures year == ParseISO(iso).value.year && month == ParseISO(iso).value.month
    ensures 0 <= month < 12
  {
    var base := ParseISO(iso).value;
    year := base.year;
    month := base.month;
  }

  /** `EntryDraft`: what the form edits and submits. */
  datatype EntryDraft = EntryDraft(id: Option<string>, date: string, text: string, images: Option<seq<EntryImage>>)

  /** The images a draft carries, `images ?? []`. */
  function DraftImages(d: EntryDraft): seq<EntryImage>
  {
    if d.images.Some? then d.images.value else []
  }

  /** The note form's state. `initialValue` is the note being edited, if
      any; `disabledDates` are the dates other notes already have, as the
      main screen passed them at its latest render. */
  class EntryForm {
    var initialValue: Option<EntryDraft>
    var disabledDates: seq<string>
    var date: string
    var calendarOpen: bool
    var viewYear: int
    var viewMonth: int
    var text: string
    var images: seq<EntryImage>

    /** The shown month is a month. */
    predicate Valid()
      reads this
    {
      0 <= viewMonth < 12
    }

    /** `handleSelectDate` refuses a date another note has, unless it is the
        edited note's own date. */
    predicate Blocked(iso: string)
      reads this
    {
      iso in disabledDates && (initialValue.None? || iso != initialValue.value.date)
    }

    /** The initial state at `now`: the edited note's fields, or today's
        date, no text and no images; the calendar is closed and shows the
        current month. */
    constructor(initial: Option<EntryDraft>, disabled: seq<string>, now: Civil)
      requires Calendar.Valid(now)
      ensures Valid()
      ensures initialValue == initial && disabledDates == disabled
      ensures date == (if initial.Some? then initial.value.date else ToLocalISODate(now))
      ensures text == (if initial.Some? then initial.value.text else "")
      ensures images == (if initial.Some? then DraftImages(initial.value) else [])
      ensures !calendarOpen && viewYear == now.year && viewMonth == now.month
    {
      initialValue := initial;
      disabledDates := disabled;
      date := if initial.Some? then initial.value.date else ToLocalISODate(now);
      calendarOpen := false;
      viewYear := now.year;
      viewMonth := now.month;
      text := if initial.Some? then initial.value.text else "";
      images := if initial.Some? then DraftImages(initial.value) else [];
    }

    /** The `initialValue` effect: a note handed in for editing replaces the
        date, text and images, and the view moves to the note's month (the
        current month at `now` when the note has no date). */
    method LoadInitialValue(v: Option<EntryDraft>, now: Civil)
      requires Valid() && Calendar.Valid(now)
      requires v.Some? && v.value.date != "" ==> ParseISO(v.value.date).Some?
      modifies this
      ensures Valid() && initialValue == v && calendarOpen == old(calendarOpen)
      ensures disabledDates == old(disabledDates)
      ensures v.None? ==> (date == old(date) && text == old(text) && images == old(images)
        && viewYear == old(viewYear) && viewMonth == old(viewMonth))
      ensures v.Some? ==> date == v.value.date && text == v.value.text && images == DraftImages(v.value)
      ensures v.Some? ==>
        var base := if v.value.date != "" then ParseISO(v.value.date).value else now;
        viewYear == base.year && viewMonth == base.month
    {
      initialValue := v;
      if v.Some? {
        date := v.value.date;
        if v.value.date != "" {
          viewYear, viewMonth := MonthOf(v.value.date);
        } else {
          viewYear, viewMonth := now.year, now.month;
        }
        text := v.value.text;
        images := DraftImages(v.value);
      }
    }

    /** A re-render of the main screen hands the form the dates its other
        notes now have (`NotesApp.DisabledDates`); the form stays mounted,
        so nothing else of its state changes. */
    method ReceiveDisabledDates(disabled: seq<string>)
      modifies this`disabledDates
      ensures disabledDates == disabled
    {
      disabledDates := disabled;
    }

    /** The `weekRange` effect: a new note's date outside the shown week
        moves to its Monday (see `WeekSyncedDateSettles`). */
    method SyncToWeek(range: WeekRange)
      modifies this`date
      ensures date == WeekSyncedDate(initialValue.Some?, old(date), range)
      ensures initialValue.Some? || IsDateInRange(old(date), range) ==> date == old(date)
    {
      if initialValue.None? && !IsDateInRange(date, range) {
        date := range.weekStart;
      }
    }

    /** `handleSubmit`: hand over the edited id, the date, the trimmed text
        and the images, then reset the form to today (`todayISO`) with no
        text and no images and close the calendar. */
    method HandleSubmit(todayISO: string) returns (submitted: EntryDraft)
      modifies this`date, this`text, this`images, this`calendarOpen
      ensures submitted.id == (if initialValue.Some? then initialValue.value.id else None)
      ensures submitted.date == old(date) && submitted.images == Some(old(images))
      ensures submitted.text == Trim(old(text))
      ensures date == todayISO && text == "" && images == [] && !calendarOpen
    {
      submitted := EntryDraft(if initialValue.Some? then initialValue.value.id else None, date, Trim(text), Some(images));
      date := todayISO;
      text := "";
      images := [];
      calendarOpen := false;
    }

    /** `handleSelectDate`: a blocked date is ignored; any other becomes the
        date, the view moves to its month and the calendar closes. The
        chosen date must be a real YYYY-MM-DD day (the calendar only offers
        those); `ParsedDateShown` states that its cell is then shown
        selected. */
    method HandleSelectDate(iso: string) returns (accepted: bool)
      requires Valid()
      requires !Blocked(iso) ==> ParseISO(iso).Some?
      modifies this`date, this`viewYear, this`viewMonth, this`calendarOpen
      ensures Valid()
      ensures accepted <==> !old(Blocked(iso))
      ensures !accepted ==> (date == old(date) && viewYear == old(viewYear) && viewMonth == old(viewMonth)
        && calendarOpen == old(calendarOpen))
      ensures accepted ==> (date == iso && !calendarOpen &&
        viewYear == ParseISO(iso).value.year && viewMonth == ParseISO(iso).value.month)
    {
      if Blocked(iso) {
        return false;
      }
      date := iso;
      viewYear, viewMonth := MonthOf(iso);
      calendarOpen := false;
      return true;
    }

    /** `handlePrevMonth`: show the previous month. */
    method HandlePrevMonth()
      requires Valid()
      modifies this`viewYear, this`viewMonth
      ensures Valid() && (viewYear, viewMonth) == PrevMonth(old(viewYear), old(viewMonth))
    {
      var prev := MakeDate(viewYear, viewMonth - 1, 1);
      PrevMonthFirst(viewYear, viewMonth);
      viewYear := prev.year;
      viewMonth := prev.month;
    }

    /** `handleNextMonth`: show the next month. */
    method HandleNextMonth()
      requires Valid()
      modifies this`viewYear, this`viewMonth
      ensures Valid() && (viewYear, viewMonth) == NextMonth(old(viewYear), old(viewMonth))
    {
      var next := MakeDate(viewYear, viewMonth + 1, 1);
      NextMonthFirstDay(viewYear, viewMonth);
      viewYear := next.year;
      viewMonth := next.month;
    }

    /** `handleToday`: today's date (`todayISO`, the rendering of the
        current day) becomes the date, the view moves to its month and the
        calendar closes. `TodayShown` states what that month then shows. */
    method HandleToday(todayISO: string)
      requires ParseISO(todayISO).Some?
      modifies this`date, this`viewYear, this`viewMonth, this`calendarOpen
      ensures Valid() && date == todayISO && !calendarOpen
      ensures viewYear == ParseISO(todayISO).value.year && viewMonth == ParseISO(todayISO).value.month
    {
      date := todayISO;
      viewYear, viewMonth := MonthOf(todayISO);
      calendarOpen := false;
    }

    /** `appendImages`: the images read from an upload go after the ones
        already attached; an upload with none leaves the list alone. */
    method AppendImages(files: seq<File>, ids: seq<string>)
      requires |ids| == |Filter(files, IsReadable)|
      modifies this`images
      ensures images == old(images) + ReadImages(files, ids)
    {
      var imgs := ReadImages(files, ids);
      if |imgs| == 0 {
        return;
      }
      images := images + imgs;
    }

    /** `handleRemoveImage`: drop the images with the id, keeping the rest
        in order (see `RemoveImageExact`). */
    method HandleRemoveImage(id: string)
      modifies this`images
      ensures images == Filter(old(images), ImageIdDiffers(id))
    {
      images := Filter(images, ImageIdDiffers(id));
    }

    /** `toggleCalendar`. */
    method ToggleCalendar()
      modifies this`calendarOpen
      ensures calendarOpen == !old(calendarOpen)
    {
      calendarOpen := !calendarOpen;
    }

    /** `closeCalendar`. */
    method CloseCalendar()
      modifies this`calendarOpen
      ensures !calendarOpen
    {
      calendarOpen := false;
    }
  }
}
