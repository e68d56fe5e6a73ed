/** The rules the main screen (poc-app/src/App.tsx) applies to its state:
    saving a note under the one-note-per-day rule, deleting and editing notes,
    moving between weeks, generating the weekly summary, and the ISO week
    number shown for the selected week. Clocks, the id generator and the
    summary service are parameters. */
module NotesApp {
  import opened Util
  import opened Types
  import opened Calendar
  import opened Sorting
  import opened Dates
  import opened Storage

  // ---------------------------------------------------------------------------
  // handleSave: the one-note-per-day rule
  // ---------------------------------------------------------------------------

  /** A `Partial<Entry>` as the form submits it: any field may be missing. */
  datatype PartialEntry = PartialEntry(
    id: Option<string>,
    date: Option<string>,
    text: Option<string>,
    createdAt: Option<int>,
    images: Option<seq<EntryImage>>)

  /** The save is refused: the draft names a non-empty date and another note
      already has that date (see `OtherOnDateExists`). */
  predicate Conflicts(entries: seq<Entry>, d: PartialEntry)
  {
    d.date.Some? && d.date.value != "" && OtherOnDate(entries, d.date.value, d.id)
  }

  /** `entries.some((e) => e.date === date && e.id !== id)`; every id differs
      from a missing one. */
  predicate OtherOnDate(entries: seq<Entry>, date: string, id: Option<string>)
  {
    entries != [] &&
    ((entries[0].date == date && (id.None? || entries[0].id != id.value)) || OtherOnDate(entries[1..], date, id))
  }

  /** The search finds a note exactly when one exists on that date with
      another id. */
  lemma {:induction false} OtherOnDateExists(entries: seq<Entry>, date: string, id: Option<string>)
    ensures OtherOnDate(entries, date, id) <==>
      exists k :: 0 <= k < |entries| && entries[k].date == date && (id.None? || entries[k].id != id.value)
  {
    if entries != [] {
      OtherOnDateExists(entries[1..], date, id);
      if exists k :: 0 <= k < |entries[1..]| && entries[1..][k].date == date && (id.None? || entries[1..][k].id != id.value) {
        var k :| 0 <= k < |entries[1..]| && entries[1..][k].date == date && (id.None? || entries[1..][k].id != id.value);
        assert entries[k + 1] == entries[1..][k];
      }
      if exists k :: 0 <= k < |entries| && entries[k].date == date && (id.None? || entries[k].id != id.value) {
        var k :| 0 <= k < |entries| && entries[k].date == date && (id.None? || entries[k].id != id.value);
        if k > 0 {
          assert entries[1..][k - 1] == entries[k];
        }
      }
    }
  }

  /** `o ?? default`. */
  function OrElse<T>(o: Option<T>, default: T): T
  {
    if o.Some? then o.value else default
  }

  /** The note a save stores: a missing id becomes the fresh id, a missing
      date today's date (`todayISO`, the rendered `toLocalISODate(new Date())`),
      a missing text the empty text, a missing creation time the current
      time, and missing images the empty list. */
  function Complete(d: PartialEntry, freshId: string, todayISO: string, now: int): (e: Entry)
    ensures e.id == (if d.id.Some? then d.id.value else freshId)
    ensures e.date == (if d.date.Some? then d.date.value else todayISO)
    ensures e.text == (if d.text.Some? then d.text.value else "")
    ensures e.createdAt == (if d.createdAt.Some? then d.createdAt.value else now)
    ensures e.images == (if d.images.Some? then d.images.value else [])
  {
    Entry(OrElse(d.id, freshId), OrElse(d.date, todayISO), OrElse(d.text, ""),
          OrElse(d.createdAt, now), OrElse(d.images, []))
  }

  /** The notes a save keeps before upserting: those on another date, and the
      note being saved itself. */
  function KeepFor(entry: Entry): Entry -> bool
  {
    (e: Entry) => e.date != entry.date || e.id == entry.id
  }

  /** The list an accepted save leaves: drop the other notes on the new
      note's date, then upsert the note. */
  function ApplySave(entries: seq<Entry>, entry: Entry): (r: seq<Entry>)
    requires DatesParse(entries) && ParseISO(entry.date).Some?
    ensures entry in r
    ensures DatesParse(r) && SortedBy(r, EntryDateKey)
  {
    FilterDatesParse(entries, KeepFor(entry));
    Upserted(Filter(entries, KeepFor(entry)), entry)
  }

  /** The list work of `handleSave`: refuse a conflicting draft and leave the
      list as it is; otherwise complete the draft, drop the other notes on its
      date and `upsertEntry` it. */
  method SaveDraft(entries: seq<Entry>, d: PartialEntry, freshId: string, todayISO: string, now: int)
    returns (rejected: bool, r: seq<Entry>)
    requires DatesParse(entries) && ParseISO(OrElse(d.date, todayISO)).Some?
    ensures rejected <==> Conflicts(entries, d)
    ensures rejected ==> r == entries
    ensures !rejected ==> r == ApplySave(entries, Complete(d, freshId, todayISO, now))
    ensures DatesParse(r)
  {
    if Conflicts(entries, d) {
      return true, entries;
    }
    var entry := Complete(d, freshId, todayISO, now);
    var withoutDate := Filter(entries, KeepFor(entry));
    FilterDatesParse(entries, KeepFor(entry));
    r := UpsertEntry(withoutDate, entry);
    return false, r;
  }

  /** Filtering keeps dates parseable. */
  lemma FilterDatesParse(s: seq<Entry>, p: Entry -> bool)
    requires DatesParse(s)
    ensures DatesParse(Filter(s, p))
  {
    var r := Filter(s, p);
    forall i | 0 <= i < |r| ensures ParseISO(r[i].date).Some? {
      var j :| 0 <= j < |s| && s[j] == r[i];
    }
  }

  /** Filtering keeps ids unique. */
  lemma {:induction false} FilterUniqueIds(s: seq<Entry>, p: Entry -> bool)
    requires UniqueIds(s)
    ensures UniqueIds(Filter(s, p))
  {
    if s != [] {
      var tail := Filter(s[1..], p);
      FilterUniqueIds(s[1..], p);
      forall k | 0 <= k < |tail| ensures tail[k].id != s[0].id {
        var j :| 0 <= j < |s[1..]| && s[1..][j] == tail[k];
        assert s[j + 1] == tail[k];
      }
    }
  }

  /** Every note after an accepted save is the saved note or an untouched
      note on another date with another id; ids stay unique. */
  lemma ApplySaveMembers(entries: seq<Entry>, entry: Entry)
    requires DatesParse(entries) && ParseISO(entry.date).Some? && UniqueIds(entries)
    ensures UniqueIds(ApplySave(entries, entry))
    ensures forall e :: e in ApplySave(entries, entry) ==>
              e == entry || (e in entries && e.id != entry.id && e.date != entry.date)
  {
    var kept := Filter(entries, KeepFor(entry));
    FilterDatesParse(entries, KeepFor(entry));
    FilterUniqueIds(entries, KeepFor(entry));
    UpsertSingleId(kept, entry);
    UpsertedMembers(kept, entry);
    forall e | e in ApplySave(entries, entry) && e != entry
      ensures e in entries && e.id != entry.id && e.date != entry.date
    {
      var i :| 0 <= i < |kept| && kept[i] == e;
      assert KeepFor(entry)(kept[i]);
    }
  }

  /** An upsert adds no note other than the upserted one. */
  lemma UpsertedMembers(entries: seq<Entry>, next: Entry)
    requires DatesParse(entries) && ParseISO(next.date).Some?
    ensures forall e :: e in Upserted(entries, next) ==> e == next || e in entries
  {
    var r := Upserted(entries, next);
    UpsertedContents(entries, next);
    forall e | e in r ensures e == next || e in entries {
      assert e in multiset(r);
    }
  }

  /** After an accepted save exactly one note has the saved note's date,
      and it is the saved note. */
  lemma ApplySaveOnePerDate(entries: seq<Entry>, entry: Entry)
    requires DatesParse(entries) && ParseISO(entry.date).Some? && UniqueIds(entries)
    ensures var r := ApplySave(entries, entry);
      multiset(r)[entry] == 1 && forall k :: 0 <= k < |r| && r[k].date == entry.date ==> r[k] == entry
  {
    var r := ApplySave(entries, entry);
    ApplySaveMembers(entries, entry);
    var k :| 0 <= k < |r| && r[k] == entry;
    CountOfUniqueId(r, k);
  }

  /** Notes on other dates with other ids are kept, as often as they occurred. */
  lemma ApplySaveKeepsOthers(entries: seq<Entry>, entry: Entry, e: Entry)
    requires DatesParse(entries) && ParseISO(entry.date).Some?
    requires e.date != entry.date && e.id != entry.id
    ensures multiset(ApplySave(entries, entry))[e] == multiset(entries)[e]
  {
    FilterDatesParse(entries, KeepFor(entry));
    UpsertKeepsOthers(Filter(entries, KeepFor(entry)), entry, e);
    FilterMultiset(entries, KeepFor(entry), e);
  }

  /** No two notes share a date. */
  predicate UniqueDates(entries: seq<Entry>)
  {
    forall a, b :: 0 <= a < b < |entries| ==> entries[a].date != entries[b].date
  }

  /** A save keeps the one-note-per-day invariant. */
  lemma ApplySaveUniqueDates(entries: seq<Entry>, entry: Entry)
    requires DatesParse(entries) && ParseISO(entry.date).Some?
    requires UniqueIds(entries) && UniqueDates(entries)
    ensures UniqueDates(ApplySave(entries, entry))
  {
    var r := ApplySave(entries, entry);
    ApplySaveMembers(entries, entry);
    forall a, b | 0 <= a < b < |r| ensures r[a].date != r[b].date {
      assert r[a].id != r[b].id;
      if r[a] != entry && r[b] != entry {
        var i :| 0 <= i < |entries| && entries[i] == r[a];
        var j :| 0 <= j < |entries| && entries[j] == r[b];
        assert i != j;
      }
    }
  }

  // ---------------------------------------------------------------------------
  // The selected week
  // ---------------------------------------------------------------------------

  /** The `weekRange` memo: the week range of the day `offset` weeks from today. */
  function WeekRangeFor(today: Civil, offset: int): WeekRange
    requires Calendar.Valid(today)
  {
    GetWeekRange(AddDays(today, offset * 7))
  }

  /** Adjacent week offsets give week starts exactly seven days apart. */
  lemma AdjacentWeekStarts(today: Civil, offset: int)
    requires Calendar.Valid(today)
    requires 1001 <= AddDays(today, offset * 7).year <= 9998
    requires 1001 <= AddDays(today, (offset + 1) * 7).year <= 9998
    ensures ParseISO(WeekRangeFor(today, offset).weekStart).Some?
    ensures ParseISO(WeekRangeFor(today, offset + 1).weekStart).Some?
    ensures DayNumber(ParseISO(WeekRangeFor(today, offset + 1).weekStart).value) ==
            DayNumber(ParseISO(WeekRangeFor(today, offset).weekStart).value) + 7
  {
    var b0 := AddDays(today, offset * 7);
    var b1 := AddDays(today, (offset + 1) * 7);
    MondaysWeekApart(b0, b1);
    WeekYears(b0);
    WeekYears(b1);
    ParseToLocalISODate(WeekMonday(b0));
    ParseToLocalISODate(WeekMonday(b1));
  }

  /** Days a week apart have Mondays a week apart. */
  lemma MondaysWeekApart(a: Civil, b: Civil)
    requires Calendar.Valid(a) && Calendar.Valid(b) && DayNumber(b) == DayNumber(a) + 7
    ensures DayNumber(WeekMonday(b)) == DayNumber(WeekMonday(a)) + 7
  {
    var ma, mb := WeekMonday(a), WeekMonday(b);
    WeekMondayIsMonday(a);
    WeekMondayIsMonday(b);
    var later := AddDays(ma, 7);
    DayOfWeekApart(ma, later, 7);
    SameWeekdayClose(later, mb);
  }

  /** The `disabledDates` the form receives: the dates of the week's notes
      other than the one being edited. */
  function DisabledDates(weekEntries: seq<Entry>, draft: Option<Entry>): (r: seq<string>)
    ensures forall k :: 0 <= k < |weekEntries| && (draft.None? || weekEntries[k].id != draft.value.id) ==>
              weekEntries[k].date in r
    ensures forall s :: s in r ==>
              exists e :: e in weekEntries && (draft.None? || e.id != draft.value.id) && e.date == s
  {
    DisabledDatesExact(weekEntries, draft);
    DatesOf(Filter(weekEntries, NotDraft(draft)))
  }

  /** `.map((e) => e.date)`. */
  function DatesOf(s: seq<Entry>): (r: seq<string>)
    ensures |r| == |s| && forall k :: 0 <= k < |s| ==> r[k] == s[k].date
  {
    seq(|s|, k requires 0 <= k < |s| => s[k].date)
  }

  lemma DisabledDatesExact(weekEntries: seq<Entry>, draft: Option<Entry>)
    ensures var r := DatesOf(Filter(weekEntries, NotDraft(draft)));
      (forall k :: 0 <= k < |weekEntries| && (draft.None? || weekEntries[k].id != draft.value.id) ==>
         weekEntries[k].date in r) &&
      (forall s :: s in r ==> exists e :: e in weekEntries && (draft.None? || e.id != draft.value.id) && e.date == s)
  {
    DatesOfFilterComplete(weekEntries, NotDraft(draft));
    DatesOfFilterSound(weekEntries, NotDraft(draft));
  }

  /** Every kept note's date is among the dates of the kept notes. */
  lemma DatesOfFilterComplete(s: seq<Entry>, p: Entry -> bool)
    ensures forall k :: 0 <= k < |s| && p(s[k]) ==> s[k].date in DatesOf(Filter(s, p))
  {
    var kept := Filter(s, p);
    var r := DatesOf(kept);
    forall k | 0 <= k < |s| && p(s[k])
      ensures s[k].date in r
    {
      var j :| 0 <= j < |kept| && kept[j] == s[k];
      assert r[j] == s[k].date;
    }
  }

  /** Every date of the kept notes is the date of a kept note. */
  lemma DatesOfFilterSound(s: seq<Entry>, p: Entry -> bool)
    ensures forall d :: d in DatesOf(Filter(s, p)) ==> exists e :: e in s && p(e) && e.date == d
  {
    var kept := Filter(s, p);
    var r := DatesOf(kept);
    forall d | d in r
      ensures exists e :: e in s && p(e) && e.date == d
    {
      var k :| 0 <= k < |r| && r[k] == d;
      var e := kept[k];
      assert e in s && p(e) && e.date == d;
    }
  }

  function NotDraft(draft: Option<Entry>): Entry -> bool
  {
    (e: Entry) => draft.None? || e.id != draft.value.id
  }

  // ---------------------------------------------------------------------------
  // getISOWeek
  // ---------------------------------------------------------------------------

  /** `date.getUTCDay() || 7`: Monday is 1 and Sunday 7. */
  function IsoWeekday(c: Civil): (d: int)
    requires Calendar.Valid(c)
    ensures 1 <= d <= 7
    ensures d % 7 == DayOfWeek(c)
  {
    if DayOfWeek(c) == 0 then 7 else DayOfWeek(c)
  }

  /** The day `setUTCDate(getUTCDate() + 4 - dayNum)` moves to: the Thursday
      of the date's Monday–Sunday week. */
  function WeekThursday(c: Civil): (t: Civil)
    requires Calendar.Valid(c)
    ensures Calendar.Valid(t)
  {
    AddDays(c, 4 - IsoWeekday(c))
  }

  /** `Math.ceil(x / 7)`. */
  function CeilDiv7(x: int): (r: int)
    ensures 7 * (r - 1) < x <= 7 * r
  {
    -((-x) / 7)
  }

  /** `getISOWeek` on a date: the Thursday's ordinal day in its year (1 for
      January 1), divided by 7 and rounded up. */
  function ISOWeek(c: Civil): int
    requires Calendar.Valid(c)
  {
    CeilDiv7(Ordinal(WeekThursday(c)) + 1)
  }

  /** `(date - yearStart) / 86400000`: days since January 1 of the date's year. */
  function Ordinal(t: Civil): (n: int)
    requires Calendar.Valid(t)
    ensures 0 <= n < DaysInYear(t.year)
  {
    DayNumberBounds(t);
    DayNumber(t) - DayNumber(Civil(t.year, 0, 1))
  }

  /** A week later the ordinal grows by seven within the year; in a later
      year it is below seven. */
  lemma OrdinalWeekLater(t: Civil, u: Civil)
    requires Calendar.Valid(t) && Calendar.Valid(u) && DayNumber(u) == DayNumber(t) + 7
    ensures u.year == t.year ==> Ordinal(u) == Ordinal(t) + 7
    ensures u.year != t.year ==> Ordinal(u) < 7
  {
    DayNumberBounds(t);
    DayNumberBounds(u);
    if u.year != t.year {
      if u.year < t.year {
        YearsAscend(u.year, t.year);
      } else {
        YearsAscend(t.year, u.year);
      }
    }
  }

  /** `getISOWeek(isoDate)`: a text that is not a date gives an invalid Date,
      and the week number is then NaN (`None`). */
  function GetISOWeek(isoDate: string): Option<int>
  {
    match ParseISO(isoDate)
    case Some(c) => Some(ISOWeek(c))
    case None => None
  }

  /** The Thursday lies three days after the week's Monday. */
  lemma ThursdayOfWeek(c: Civil)
    requires Calendar.Valid(c)
    ensures DayNumber(WeekThursday(c)) == DayNumber(WeekMonday(c)) + 3
  {
  }

  /** ISO week numbers lie in 1..53. */
  lemma ISOWeekBounds(c: Civil)
    requires Calendar.Valid(c)
    ensures 1 <= ISOWeek(c) <= 53
  {
  }

  /** All seven days of a Monday–Sunday week have the same week number. */
  lemma ISOWeekConstant(a: Civil, b: Civil)
    requires Calendar.Valid(a) && Calendar.Valid(b)
    requires DayNumber(WeekMonday(a)) <= DayNumber(b) <= DayNumber(WeekMonday(a)) + 6
    ensures ISOWeek(b) == ISOWeek(a)
  {
    WeekMondayConstant(a, b);
    ThursdayOfWeek(a);
    ThursdayOfWeek(b);
    DayNumberInjective(WeekThursday(a), WeekThursday(b));
  }

  /** The week holding the year's first Thursday is week 1 (the Thursday rule
      of section 4.1.4 of ISO 8601:2004). */
  lemma ISOWeekFirstThursday(c: Civil)
    requires Calendar.Valid(c) && DayOfWeek(c) == 4 && c.month == 0 && c.day <= 7
    ensures ISOWeek(c) == 1
  {
    ThursdayOwnWeek(c);
    OrdinalInJanuary(c);
  }

  /** A Thursday is the Thursday of its own week. */
  lemma ThursdayOwnWeek(c: Civil)
    requires Calendar.Valid(c) && DayOfWeek(c) == 4
    ensures WeekThursday(c) == c
  {
    assert IsoWeekday(c) == 4;
    DayNumberInjective(WeekThursday(c), c);
  }

  /** A January date is `day - 1` days into its year. */
  lemma OrdinalInJanuary(c: Civil)
    requires Calendar.Valid(c) && c.month == 0
    ensures Ordinal(c) == c.day - 1
  {
    MonthStart(c);
  }

  /** A week later the number goes up by one while the Thursday stays in the
      same year, and starts again at 1 when it moves into the next year. */
  lemma ISOWeekNext(c: Civil)
    requires Calendar.Valid(c)
    ensures var n := AddDays(c, 7);
      ISOWeek(n) == if WeekThursday(n).year == WeekThursday(c).year then ISOWeek(c) + 1 else 1
  {
    var n := AddDays(c, 7);
    MondaysWeekApart(c, n);
    ThursdayOfWeek(c);
    ThursdayOfWeek(n);
    OrdinalWeekLater(WeekThursday(c), WeekThursday(n));
  }

  /** The number shown for the selected week is the ISO week of the day the
      week range was taken from. */
  lemma WeekNumberOfRange(today: Civil, offset: int)
    requires Calendar.Valid(today)
    requires 1001 <= AddDays(today, offset * 7).year <= 9998
    ensures GetISOWeek(WeekRangeFor(today, offset).weekStart) == Some(ISOWeek(AddDays(today, offset * 7)))
  {
    var base := AddDays(today, offset * 7);
    WeekYears(base);
    ParseToLocalISODate(WeekMonday(base));
    WeekMondayIsMonday(base);
    ISOWeekConstant(WeekMonday(base), base);
    GetWeekRangeIdempotent(base);
  }

  // ---------------------------------------------------------------------------
  // The main screen's state and handlers
  // ---------------------------------------------------------------------------

  const NoNotesMessage: string := "이번 주 메모가 없습니다. 메모를 추가해 주세요."
  const GenerateFailedMessage: string := "요약 생성에 실패했습니다."

  /** What the summary service call did: returned the summary text, or threw
      (an `Error` carries its message; any other thrown value none). */
  datatype CallOutcome = Success(content: string) | Failure(message: Option<string>)

  /** The notes and week range handed to the summary service. */
  datatype SummaryRequest = SummaryRequest(entries: seq<Entry>, range: WeekRange)

  class App {
    var entries: seq<Entry>
    var draft: Option<Entry>
    var summary: Option<Summary>
    var loading: bool
    var error: Option<string>
    var weekOffset: int

    /** The state every handler keeps: the selected week is never after the
        current one, and every note's date is a real day. */
    predicate Valid()
      reads this
    {
      weekOffset <= 0 && DatesParse(entries)
    }

    /** The initial state: no notes, no draft, no summary, the current week. */
    constructor()
      ensures Valid()
      ensures entries == [] && draft == None && summary == None && !loading && error == None && weekOffset == 0
    {
      entries := [];
      draft := None;
      summary := None;
      loading := false;
      error := None;
      weekOffset := 0;
    }

    /** The mount effect: the stored notes replace the list. */
    method Load(stored: StoredValue, now: int)
      requires Valid() && DatesParse(LoadEntries(stored, now))
      modifies this
      ensures Valid() && entries == LoadEntries(stored, now)
      ensures draft == old(draft) && summary == old(summary) && loading == old(loading)
      ensures error == old(error) && weekOffset == old(weekOffset)
    {
      entries := LoadEntries(stored, now);
    }

    /** `handleSave`: refuse a draft whose date another note already has;
        otherwise complete the draft, drop the other notes on its date, upsert
        it and clear the draft. `todayISO` is today's date as rendered by
        `ToLocalISODate`; the date the note ends up with must be a real day
        for the sort to compare it. */
    method HandleSave(d: PartialEntry, freshId: string, todayISO: string, now: int) returns (rejected: bool)
      requires Valid()
      requires ParseISO(OrElse(d.date, todayISO)).Some?
      modifies this`entries, this`draft
      ensures Valid()
      ensures rejected <==> Conflicts(old(entries), d)
      ensures rejected ==> entries == old(entries) && draft == old(draft)
      ensures !rejected ==> entries == ApplySave(old(entries), Complete(d, freshId, todayISO, now)) && draft == None
    {
      var updated;
      rejected, updated := SaveDraft(entries, d, freshId, todayISO, now);
      if !rejected {
        entries := updated;
        draft := None;
      }
    }

    /** `handleEdit`: the note becomes the draft. */
    method HandleEdit(e: Entry)
      modifies this
      ensures draft == Some(e)
      ensures entries == old(entries) && summary == old(summary) && loading == old(loading)
      ensures error == old(error) && weekOffset == old(weekOffset)
    {
      draft := Some(e);
    }

    /** `handleCancelEdit`: the draft is cleared. */
    method HandleCancelEdit()
      modifies this
      ensures draft == None
      ensures entries == old(entries) && summary == old(summary) && loading == old(loading)
      ensures error == old(error) && weekOffset == old(weekOffset)
    {
      draft := None;
    }

    /** `handleDelete`: the notes with the id are removed. */
    method HandleDelete(id: string)
      requires Valid()
      modifies this
      ensures Valid() && entries == DeleteEntry(old(entries), id)
      ensures draft == old(draft) && summary == old(summary) && loading == old(loading)
      ensures error == old(error) && weekOffset == old(weekOffset)
    {
      FilterDatesParse(entries, IdDiffers(id));
      entries := DeleteEntry(entries, id);
    }

    /** `handlePrevWeek`: one week back. */
    method HandlePrevWeek()
      requires Valid()
      modifies this
      ensures Valid() && weekOffset == old(weekOffset) - 1
      ensures entries == old(entries) && draft == old(draft) && summary == old(summary)
      ensures loading == old(loading) && error == old(error)
    {
      weekOffset := weekOffset - 1;
    }

    /** `handleNextWeek`: one week forward, but never past the current week. */
    method HandleNextWeek()
      requires Valid()
      modifies this
      ensures Valid() && weekOffset == (if old(weekOffset) < 0 then old(weekOffset) + 1 else 0)
      ensures entries == old(entries) && draft == old(draft) && summary == old(summary)
      ensures loading == old(loading) && error == old(error)
    {
      weekOffset := if weekOffset + 1 < 0 then weekOffset + 1 else 0;
    }

    /** `handleGenerate`: with no notes in the selected week, report that and
        send nothing; otherwise send the week's notes and range, and store the
        summary or the failure message. Loading is off afterwards either way.
        `range` is the `weekRange` memo, the week `weekOffset` weeks from
        `today`. */
    method HandleGenerate(today: Civil, range: WeekRange, outcome: CallOutcome, now: int) returns (sent: Option<SummaryRequest>)
      requires Valid() && Calendar.Valid(today) && range == WeekRangeFor(today, weekOffset)
      modifies this`loading, this`error, this`summary
      ensures Valid() && !loading
      ensures var week := FilterEntriesInRange(entries, range);
              (sent.None? <==> week == []) &&
              (week == [] ==> error == Some(NoNotesMessage) && summary == old(summary)) &&
              (week != [] ==> sent == Some(SummaryRequest(week, range))) &&
              (week != [] && outcome.Success? ==>
                 error == None && summary == Some(Summary(outcome.content, now, range.weekStart, range.weekEnd))) &&
              (week != [] && outcome.Failure? ==>
                 error == Some(OrElse(outcome.message, GenerateFailedMessage)) && summary == old(summary))
    {
      loading := true;
      error := None;
      var week := FilterEntriesInRange(entries, range);
      if week == [] {
        error := Some(NoNotesMessage);
        sent := None;
      } else {
        sent := Some(SummaryRequest(week, range));
        match outcome
        case Success(content) =>
          summary := Some(Summary(content, now, range.weekStart, range.weekEnd));
        case Failure(message) =>
          error := Some(OrElse(message, GenerateFailedMessage));
      }
      loading := false;
    }
  }
}
