/** The date utilities of the notes tool (poc-app/src/utils/date.ts): ISO
    rendering and reading of dates, shifting by days, the Monday–Friday range
    of a date, range membership, and filtering and sorting notes by date. */
module Dates {
  import opened Util
  import opened Calendar
  import opened Types
  import opened Sorting

  // ---------------------------------------------------------------------------
  // Rendering and reading YYYY-MM-DD
  // ---------------------------------------------------------------------------

  /** `pad`: a number as text, left-padded with zeros to two characters. */
  function Pad(n: int): string
  {
    PadStart(IntToString(n), 2, '0')
  }

  /** Numbers below 100 pad to exactly two digits that read back as the number. */
  lemma PadTwoDigits(n: int)
    requires 0 <= n < 100
    ensures |Pad(n)| == 2 && AllDigits(Pad(n)) && DigitsValue(Pad(n)) == n
  {
    NatToStringSmall(n);
    DigitsValueOfNatToString(n);
    if n < 10 {
      assert Pad(n) == "0" + NatToString(n);
      DigitsValueLeadingZero(NatToString(n));
    }
  }

  /** `toLocalISODate`: the full year, then the 1-based month and the day,
      each padded to two digits, separated by hyphens. */
  function ToLocalISODate(c: Civil): string
  {
    IntToString(c.year) + "-" + Pad(c.month + 1) + "-" + Pad(c.day)
  }

  /** For a four-digit year the text has the form YYYY-MM-DD, and its three
      fields read back as the year, the 0-based month plus one, and the day. */
  lemma ToLocalISODateFormat(c: Civil)
    requires Valid(c) && 1000 <= c.year <= 9999
    ensures var s := ToLocalISODate(c);
      && |s| == 10 && s[4] == '-' && s[7] == '-'
      && AllDigits(s[..4]) && AllDigits(s[5..7]) && AllDigits(s[8..])
      && DigitsValue(s[..4]) == c.year
      && DigitsValue(s[5..7]) == c.month + 1
      && DigitsValue(s[8..]) == c.day
  {
    RenderedText(c);
    RenderedFields(c.year, c.month + 1, c.day);
  }

  lemma RenderedText(c: Civil)
    ensures ToLocalISODate(c) == IntToString(c.year) + "-" + Pad(c.month + 1) + "-" + Pad(c.day)
  {
  }

  /** The three rendered fields of a four-digit year, a month and a day. */
  lemma RenderedFields(year: int, month: int, day: int)
    requires 1000 <= year <= 9999 && 1 <= month <= 12 && 1 <= day <= 31
    ensures var s := IntToString(year) + "-" + Pad(month) + "-" + Pad(day);
      && |s| == 10 && s[4] == '-' && s[7] == '-'
      && AllDigits(s[..4]) && AllDigits(s[5..7]) && AllDigits(s[8..])
      && DigitsValue(s[..4]) == year
      && DigitsValue(s[5..7]) == month
      && DigitsValue(s[8..]) == day
  {
    NatToStringFourDigits(year);
    DigitsValueOfNatToString(year);
    PadTwoDigits(month);
    PadTwoDigits(day);
    FieldsAt(IntToString(year), Pad(month), Pad(day), year, month, day);
  }

  /** Where the three fields of a YYYY-MM-DD text sit, and what they read as. */
  lemma FieldsAt(y: string, m: string, d: string, year: int, month: int, day: int)
    requires |y| == 4 && |m| == 2 && |d| == 2
    requires AllDigits(y) && AllDigits(m) && AllDigits(d)
    requires DigitsValue(y) == year && DigitsValue(m) == month && DigitsValue(d) == day
    ensures var s := y + "-" + m + "-" + d;
      && |s| == 10 && s[4] == '-' && s[7] == '-'
      && AllDigits(s[..4]) && AllDigits(s[5..7]) && AllDigits(s[8..])
      && DigitsValue(s[..4]) == year
      && DigitsValue(s[5..7]) == month
      && DigitsValue(s[8..]) == day
  {
    var s := y + "-" + m + "-" + d;
    assert s[..4] == y;
    assert s[5..7] == m;
    assert s[8..] == d;
  }

  /** `new Date(s)` for the date-only ISO form YYYY-MM-DD: the date it denotes,
      or `None` where the result is an invalid Date (NaN time value). */
  function ParseISO(s: string): (r: Option<Civil>)
    ensures r.Some? ==> Valid(r.value) && 0 <= r.value.year <= 9999
  {
    if |s| == 10 && s[4] == '-' && s[7] == '-' && AllDigits(s[..4]) && AllDigits(s[5..7]) && AllDigits(s[8..]) then
      var c := Civil(DigitsValue(s[..4]), DigitsValue(s[5..7]) - 1, DigitsValue(s[8..]));
      assert DigitsValue(s[..4]) <= 9999 by { DigitsBound(s[..4]); }
      if Valid(c) then Some(c) else None
    else None
  }

  lemma {:induction false} DigitsBound(s: string)
    requires AllDigits(s) && |s| <= 4
    ensures DigitsValue(s) < [1, 10, 100, 1000, 10000][|s|]
  {
    if s != [] {
      DigitsBound(s[..|s| - 1]);
    }
  }

  /** Reading back a rendered date gives the date (four-digit years). */
  lemma ParseToLocalISODate(c: Civil)
    requires Valid(c) && 1000 <= c.year <= 9999
    ensures ParseISO(ToLocalISODate(c)) == Some(c)
  {
    ToLocalISODateFormat(c);
  }

  /** A text that reads as a date with a four-digit year is that date's
      rendering: the form admits no other spelling of it. */
  lemma ParseISOCanonical(s: string, c: Civil)
    requires ParseISO(s) == Some(c) && 1000 <= c.year
    ensures ToLocalISODate(c) == s
  {
    var t := ToLocalISODate(c);
    ToLocalISODateFormat(c);
    DigitsInjective(s[..4], t[..4]);
    DigitsInjective(s[5..7], t[5..7]);
    DigitsInjective(s[8..], t[8..]);
    assert s == s[..4] + "-" + s[5..7] + "-" + s[8..];
    assert t == t[..4] + "-" + t[5..7] + "-" + t[8..];
  }

  /** Rendering is injective on dates with four-digit years, so comparing the
      texts of two dates compares the dates. */
  lemma ToLocalISODateInjective(a: Civil, b: Civil)
    requires Valid(a) && 1000 <= a.year <= 9999 && Valid(b) && 1000 <= b.year <= 9999
    ensures ToLocalISODate(a) == ToLocalISODate(b) <==> a == b
  {
    ParseToLocalISODate(a);
    ParseToLocalISODate(b);
  }

  // ---------------------------------------------------------------------------
  // Shifting and week ranges
  // ---------------------------------------------------------------------------

  /** `addDays`: `new Date(year, month, day + days)`, the date `days` calendar
      days later (earlier for negative `days`). */
  function AddDays(c: Civil, days: int): (r: Civil)
    requires Valid(c)
    ensures Valid(r) && DayNumber(r) == DayNumber(c) + days
  {
    MakeDateFrom(c, days);
    MakeDate(c.year, c.month, c.day + days)
  }

  /** Shifts compose additively. */
  lemma AddDaysCompose(c: Civil, a: int, b: int)
    requires Valid(c)
    ensures AddDays(AddDays(c, a), b) == AddDays(c, a + b)
  {
    DayNumberInjective(AddDays(AddDays(c, a), b), AddDays(c, a + b));
  }

  /** Dates less than a year apart are at most one calendar year apart. */
  lemma YearNear(c: Civil, r: Civil)
    requires Valid(c) && Valid(r)
    requires DayNumber(c) - 365 <= DayNumber(r) <= DayNumber(c) + 365
    ensures c.year - 1 <= r.year <= c.year + 1
  {
    DayNumberBounds(c);
    DayNumberBounds(r);
    YearsNear(c.year, r.year, DayNumber(c), DayNumber(r));
  }

  /** Days less than a year apart fall in the same or adjacent years. */
  lemma YearsNear(a: int, b: int, x: int, z: int)
    requires DaysBeforeYear(a) <= x < DaysBeforeYear(a) + DaysInYear(a)
    requires DaysBeforeYear(b) <= z < DaysBeforeYear(b) + DaysInYear(b)
    requires x - 365 <= z <= x + 365
    ensures a - 1 <= b <= a + 1
  {
    if b > a + 1 {
      YearStep(a);
      YearsAscend(a + 1, b);
    } else if b < a - 1 {
      YearStep(a - 1);
      YearsAscend(b, a - 1);
    }
  }

  /** Days from the base date back to its week's Monday (Sunday goes back 6). */
  function DiffToMonday(day: int): int
  {
    if day == 0 then -6 else 1 - day
  }

  /** The `monday` of `getWeekRange(base)`. */
  function WeekMonday(base: Civil): (r: Civil)
    requires Valid(base)
    ensures Valid(r)
  {
    AddDays(base, DiffToMonday(DayOfWeek(base)))
  }

  /** The `friday` of `getWeekRange(base)`. */
  function WeekFriday(base: Civil): (r: Civil)
    requires Valid(base)
    ensures Valid(r)
  {
    AddDays(WeekMonday(base), 4)
  }

  /** `getWeekRange`: the Monday and Friday of the base date's Monday–Sunday week. */
  function GetWeekRange(base: Civil): WeekRange
    requires Valid(base)
  {
    WeekRange(ToLocalISODate(WeekMonday(base)), ToLocalISODate(WeekFriday(base)))
  }

  /** The week starts on a Monday, and the base date is among the seven days
      from that Monday. */
  lemma WeekMondayIsMonday(base: Civil)
    requires Valid(base)
    ensures DayOfWeek(WeekMonday(base)) == 1
    ensures DayNumber(WeekMonday(base)) <= DayNumber(base) <= DayNumber(WeekMonday(base)) + 6
  {
    var w := DayOfWeek(base);
    DayOfWeekApart(base, WeekMonday(base), DiffToMonday(w));
    MondayOffset(w);
  }

  /** Moving back by `DiffToMonday` lands on weekday 1, at most six days back. */
  lemma MondayOffset(w: int)
    requires 0 <= w < 7
    ensures (w + DiffToMonday(w)) % 7 == 1 && -6 <= DiffToMonday(w) <= 0
  {
  }

  /** The week ends four days after it starts, on a Friday. */
  lemma WeekFridayIsFriday(base: Civil)
    requires Valid(base)
    ensures DayNumber(WeekFriday(base)) == DayNumber(WeekMonday(base)) + 4
    ensures DayOfWeek(WeekFriday(base)) == 5
  {
    WeekMondayIsMonday(base);
    DayOfWeekApart(WeekMonday(base), WeekFriday(base), 4);
  }

  /** Every day of a Monday–Sunday week has the same week range. */
  lemma WeekRangeConstant(a: Civil, b: Civil)
    requires Valid(a) && Valid(b)
    requires DayNumber(WeekMonday(a)) <= DayNumber(b) <= DayNumber(WeekMonday(a)) + 6
    ensures WeekMonday(b) == WeekMonday(a)
    ensures GetWeekRange(b) == GetWeekRange(a)
  {
    WeekMondayConstant(a, b);
  }

  /** The days of a Monday–Sunday week share their Monday. */
  lemma WeekMondayConstant(a: Civil, b: Civil)
    requires Valid(a) && Valid(b)
    requires DayNumber(WeekMonday(a)) <= DayNumber(b) <= DayNumber(WeekMonday(a)) + 6
    ensures WeekMonday(b) == WeekMonday(a)
  {
    WeekMondayIsMonday(a);
    WeekMondayIsMonday(b);
    SameWeekdayClose(WeekMonday(a), WeekMonday(b));
  }

  /** The range is idempotent: taking the range of its own Monday gives it back. */
  lemma GetWeekRangeIdempotent(base: Civil)
    requires Valid(base)
    ensures WeekMonday(WeekMonday(base)) == WeekMonday(base)
    ensures GetWeekRange(WeekMonday(base)) == GetWeekRange(base)
  {
    WeekMondayIsMonday(base);
    WeekRangeConstant(base, WeekMonday(base));
  }

  // ---------------------------------------------------------------------------
  // Range membership
  // ---------------------------------------------------------------------------

  /** `isDateInRange`: the date lies between the range's start and end, both
      included. A text that does not denote a date is an invalid Date, and
      every comparison with one is false. */
  function IsDateInRange(dateISO: string, range: WeekRange): bool
  {
    match (ParseISO(dateISO), ParseISO(range.weekStart), ParseISO(range.weekEnd))
    case (Some(t), Some(s), Some(e)) => DayNumber(s) <= DayNumber(t) && DayNumber(t) <= DayNumber(e)
    case _ => false
  }

  /** Dates near the given date have four-digit years when it is well inside them. */
  lemma WeekYears(base: Civil)
    requires Valid(base) && 1001 <= base.year <= 9998
    ensures 1000 <= WeekMonday(base).year <= 9999 && 1000 <= WeekFriday(base).year <= 9999
    ensures 1000 <= AddDays(WeekMonday(base), -1).year <= 9999
    ensures 1000 <= AddDays(WeekFriday(base), 1).year <= 9999
  {
    WeekMondayIsMonday(base);
    WeekFridayIsFriday(base);
    var mon, fri := WeekMonday(base), WeekFriday(base);
    YearNear(base, mon);
    YearNear(base, fri);
    YearNear(base, AddDays(mon, -1));
    YearNear(base, AddDays(fri, 1));
  }

  /** Inside a week range are exactly the Monday and the four days after it. */
  lemma InWeekRangeExactly(base: Civil, c: Civil)
    requires Valid(base) && 1001 <= base.year <= 9998
    requires Valid(c) && 1000 <= c.year <= 9999
    ensures IsDateInRange(ToLocalISODate(c), GetWeekRange(base)) <==>
      DayNumber(WeekMonday(base)) <= DayNumber(c) <= DayNumber(WeekMonday(base)) + 4
  {
    WeekYears(base);
    WeekFridayIsFriday(base);
    InRangeOfRendered(c, WeekMonday(base), WeekFriday(base));
  }

  /** Membership of rendered dates in a range of rendered dates is day-number
      comparison (four-digit years). */
  lemma InRangeOfRendered(c: Civil, a: Civil, b: Civil)
    requires Valid(c) && 1000 <= c.year <= 9999
    requires Valid(a) && 1000 <= a.year <= 9999
    requires Valid(b) && 1000 <= b.year <= 9999
    ensures IsDateInRange(ToLocalISODate(c), WeekRange(ToLocalISODate(a), ToLocalISODate(b))) <==>
      DayNumber(a) <= DayNumber(c) <= DayNumber(b)
  {
    ParseToLocalISODate(c);
    ParseToLocalISODate(a);
    ParseToLocalISODate(b);
  }

  /** Membership is inclusive at both ends of the range. */
  lemma WeekRangeEndpoints(base: Civil)
    requires Valid(base) && 1001 <= base.year <= 9998
    ensures IsDateInRange(GetWeekRange(base).weekStart, GetWeekRange(base))
    ensures IsDateInRange(GetWeekRange(base).weekEnd, GetWeekRange(base))
  {
    WeekYears(base);
    WeekFridayIsFriday(base);
    InRangeOfRendered(WeekMonday(base), WeekMonday(base), WeekFriday(base));
    InRangeOfRendered(WeekFriday(base), WeekMonday(base), WeekFriday(base));
  }

  /** The Sunday before and the Saturday after the range are outside it. */
  lemma WeekRangeNeighbours(base: Civil)
    requires Valid(base) && 1001 <= base.year <= 9998
    ensures !IsDateInRange(ToLocalISODate(AddDays(WeekMonday(base), -1)), GetWeekRange(base))
    ensures !IsDateInRange(ToLocalISODate(AddDays(WeekFriday(base), 1)), GetWeekRange(base))
  {
    WeekYears(base);
    WeekFridayIsFriday(base);
    InRangeOfRendered(AddDays(WeekMonday(base), -1), WeekMonday(base), WeekFriday(base));
    InRangeOfRendered(AddDays(WeekFriday(base), 1), WeekMonday(base), WeekFriday(base));
  }

  // ---------------------------------------------------------------------------
  // Filtering and sorting notes
  // ---------------------------------------------------------------------------

  function InRange(range: WeekRange): Entry -> bool
  {
    (e: Entry) => IsDateInRange(e.date, range)
  }

  /** `filterEntriesInRange`: the notes whose date lies in the range. */
  function FilterEntriesInRange(entries: seq<Entry>, range: WeekRange): (r: seq<Entry>)
  {
    Filter(entries, InRange(range))
  }

  /** Exactly the notes in range are kept, as many times as they occur, and
      the filter keeps relative order (it distributes over concatenation). */
  lemma FilterEntriesInRangeExact(entries: seq<Entry>, more: seq<Entry>, range: WeekRange)
    ensures forall e :: e in FilterEntriesInRange(entries, range) <==> e in entries && IsDateInRange(e.date, range)
    ensures forall e ::
              multiset(FilterEntriesInRange(entries, range))[e] ==
              (if IsDateInRange(e.date, range) then multiset(entries)[e] else 0)
    ensures FilterEntriesInRange(entries + more, range) == FilterEntriesInRange(entries, range) + FilterEntriesInRange(more, range)
  {
    forall e ensures multiset(FilterEntriesInRange(entries, range))[e] ==
      (if IsDateInRange(e.date, range) then multiset(entries)[e] else 0)
    {
      FilterMultiset(entries, InRange(range), e);
    }
    FilterConcat(entries, more, InRange(range));
  }

  /** The sort key of a note: the day number of its date. */
  function EntryDateKey(e: Entry): int
  {
    match ParseISO(e.date)
    case Some(c) => DayNumber(c)
    case None => 0
  }

  /** Every note's date denotes a real day. */
  predicate DatesParse(entries: seq<Entry>)
  {
    forall i :: 0 <= i < |entries| ==> ParseISO(entries[i].date).Some?
  }

  /** `sortByDateAsc`: a sorted copy, oldest first; notes on the same day keep
      their order. */
  function SortByDateAsc(items: seq<Entry>): (r: seq<Entry>)
    requires DatesParse(items)
    ensures |r| == |items| && multiset(r) == multiset(items)
    ensures DatesParse(r) && SortedBy(r, EntryDateKey)
  {
    var r := SortBy(items, EntryDateKey);
    assert forall i :: 0 <= i < |r| ==> r[i] in multiset(items);
    r
  }

  /** The sort is stable: the notes of any one day appear in the result in
      the order they had in the input, and it is the only sorted permutation
      with that property, so any stable sort returns exactly this list. */
  lemma SortByDateAscStable(items: seq<Entry>, other: seq<Entry>)
    requires DatesParse(items)
    ensures forall k :: WithKey(SortByDateAsc(items), EntryDateKey, k) == WithKey(items, EntryDateKey, k)
    ensures IsStableSortOf(other, items, EntryDateKey) ==> other == SortByDateAsc(items)
  {
    var r := SortByDateAsc(items);
    assert IsStableSortOf(r, items, EntryDateKey);
    if IsStableSortOf(other, items, EntryDateKey) {
      StableSortUnique(other, r, items, EntryDateKey);
    }
  }
}
