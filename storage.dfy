/** The note store (poc-app/src/utils/storage.ts): inserting or replacing a
    note by id and re-sorting, deleting by id, and the defaulting of fields
    when the stored list is read back. The browser storage itself is a value
    passed in and out. */
module Storage {
  import opened Util
  import opened Types
  import opened Sorting
  import opened Dates

  // ---------------------------------------------------------------------------
  // upsertEntry
  // ---------------------------------------------------------------------------

  /** `entries.findIndex((e) => e.id === id)`: the first index holding `id`, or -1. */
  function FindIndexById(entries: seq<Entry>, id: string): (i: int)
    ensures -1 <= i < |entries|
    ensures i == -1 <==> forall k :: 0 <= k < |entries| ==> entries[k].id != id
    ensures i >= 0 ==> entries[i].id == id && forall k :: 0 <= k < i ==> entries[k].id != id
  {
    if entries == [] then -1
    else if entries[0].id == id then 0
    else
      var j := FindIndexById(entries[1..], id);
      if j == -1 then -1 else j + 1
  }

  /** The copy `upsertEntry` sorts: `next` written over the first note with its
      id, or appended when no note has that id. */
  function Placed(entries: seq<Entry>, next: Entry): (r: seq<Entry>)
    ensures next in r
    ensures DatesParse(entries) && ParseISO(next.date).Some? ==> DatesParse(r)
  {
    var i := FindIndexById(entries, next.id);
    if i == -1 then
      var added := entries + [next];
      assert forall k :: 0 <= k < |entries| ==> added[k] == entries[k];
      added
    else
      var updated := entries[i := next];
      assert updated[i] == next;
      updated
  }

  /** With no note of `next`'s id, `next` is added; otherwise it takes the
      place of the first such note. Unique ids stay unique. */
  lemma PlacedContents(entries: seq<Entry>, next: Entry)
    ensures UniqueIds(entries) ==> UniqueIds(Placed(entries, next))
    ensures FindIndexById(entries, next.id) == -1 ==>
      |Placed(entries, next)| == |entries| + 1 &&
      multiset(Placed(entries, next)) == multiset(entries) + multiset{next}
    ensures FindIndexById(entries, next.id) != -1 ==>
      |Placed(entries, next)| == |entries| &&
      multiset(Placed(entries, next)) ==
        multiset(entries) - multiset{entries[FindIndexById(entries, next.id)]} + multiset{next}
  {
    var i := FindIndexById(entries, next.id);
    if i != -1 {
      var updated := entries[i := next];
      assert updated == entries[..i] + [next] + entries[i + 1..];
      assert entries == entries[..i] + [entries[i]] + entries[i + 1..];
    }
  }

  /** What `upsertEntry(entries, next)` returns. The list and `next` must carry
      dates the sort comparator can compare (see `SortByDateAsc`). */
  function Upserted(entries: seq<Entry>, next: Entry): (r: seq<Entry>)
    requires DatesParse(entries) && ParseISO(next.date).Some?
    ensures next in r
    ensures DatesParse(r) && SortedBy(r, EntryDateKey)
  {
    var placed := Placed(entries, next);
    assert next in multiset(placed);
    SortByDateAsc(placed)
  }

  /** An upsert of an absent id adds `next` (one note more); of a present id
      it replaces the first note with that id (as many notes as before). */
  lemma UpsertedContents(entries: seq<Entry>, next: Entry)
    requires DatesParse(entries) && ParseISO(next.date).Some?
    ensures var r := Upserted(entries, next);
      FindIndexById(entries, next.id) == -1 ==>
        |r| == |entries| + 1 && multiset(r) == multiset(entries) + multiset{next}
    ensures var r := Upserted(entries, next);
      FindIndexById(entries, next.id) != -1 ==>
        |r| == |entries| &&
        multiset(r) == multiset(entries) - multiset{entries[FindIndexById(entries, next.id)]} + multiset{next}
  {
    PlacedContents(entries, next);
  }

  /** `upsertEntry`: copy the list, overwrite the slot of the first note with
      `next`'s id (or append `next` when there is none), then sort the copy by
      date. The caller's list is never written. */
  method UpsertEntry(entries: seq<Entry>, next: Entry) returns (r: seq<Entry>)
    requires DatesParse(entries) && ParseISO(next.date).Some?
    ensures r == Upserted(entries, next)
  {
    var i := FindIndexById(entries, next.id);
    if i == -1 {
      r := SortByDateAsc(entries + [next]);
    } else {
      var updated := new Entry[|entries|](k requires 0 <= k < |entries| => entries[k]);
      updated[i] := next;
      assert updated[..] == entries[i := next];
      r := SortByDateAsc(updated[..]);
    }
  }

  /** Notes with other ids survive an upsert, as many times as they occurred. */
  lemma UpsertKeepsOthers(entries: seq<Entry>, next: Entry, e: Entry)
    requires DatesParse(entries) && ParseISO(next.date).Some?
    requires e.id != next.id
    ensures multiset(Upserted(entries, next))[e] == multiset(entries)[e]
  {
    UpsertedContents(entries, next);
    var i := FindIndexById(entries, next.id);
    if i == -1 {
      CountAfterAdd(multiset(entries), next, e);
    } else {
      CountAfterReplace(multiset(entries), entries[i], next, e);
    }
  }

  lemma CountAfterAdd<T>(m: multiset<T>, n: T, e: T)
    requires e != n
    ensures (m + multiset{n})[e] == m[e]
  {
  }

  lemma CountAfterReplace<T>(m: multiset<T>, x: T, n: T, e: T)
    requires e != x && e != n
    ensures (m - multiset{x} + multiset{n})[e] == m[e]
  {
  }

  /** With unique ids, an upsert keeps ids unique, and the one note carrying
      `next`'s id afterwards is `next`. */
  lemma UpsertSingleId(entries: seq<Entry>, next: Entry)
    requires DatesParse(entries) && ParseISO(next.date).Some?
    requires UniqueIds(entries)
    ensures UniqueIds(Upserted(entries, next))
    ensures forall e :: e in Upserted(entries, next) && e.id == next.id ==> e == next
  {
    var r := Upserted(entries, next);
    PlacedContents(entries, next);
    UniqueIdsPermutation(Placed(entries, next), r);
    UniqueIdOwner(r, next);
  }

  /** In a list with unique ids, a member is the only note with its id. */
  lemma UniqueIdOwner(r: seq<Entry>, x: Entry)
    requires UniqueIds(r) && x in r
    ensures forall e :: e in r && e.id == x.id ==> e == x
  {
    forall e | e in r && e.id == x.id ensures e == x {
      var a :| 0 <= a < |r| && r[a] == e;
      var b :| 0 <= b < |r| && r[b] == x;
    }
  }

  /** No two notes share an id. */
  predicate UniqueIds(entries: seq<Entry>)
  {
    forall a, b :: 0 <= a < b < |entries| ==> entries[a].id != entries[b].id
  }

  /** Reordering keeps ids unique. */
  lemma UniqueIdsPermutation(a: seq<Entry>, b: seq<Entry>)
    requires UniqueIds(a) && multiset(a) == multiset(b)
    ensures UniqueIds(b)
  {
    forall x, y | 0 <= x < y < |b| ensures b[x].id != b[y].id {
      assert b[x] in multiset(a) && b[y] in multiset(a);
      var i :| 0 <= i < |a| && a[i] == b[x];
      var j :| 0 <= j < |a| && a[j] == b[y];
      if b[x] == b[y] {
        CountOfUniqueId(a, i);
        CountTwice(b, x, y);
      }
    }
  }

  /** In a list with unique ids every note occurs once. */
  lemma CountOfUniqueId(entries: seq<Entry>, k: int)
    requires UniqueIds(entries) && 0 <= k < |entries|
    ensures multiset(entries)[entries[k]] == 1
  {
    var e := entries[k];
    assert entries == entries[..k] + [e] + entries[k + 1..];
    forall j | 0 <= j < k ensures entries[..k][j] != e {
      assert entries[..k][j] == entries[j];
    }
    var tail := entries[k + 1..];
    forall j | 0 <= j < |tail| ensures tail[j] != e {
      assert tail[j] == entries[k + 1 + j];
    }
    assert multiset(entries[..k])[e] == 0 && multiset(entries[k + 1..])[e] == 0;
  }

  /** An element at two positions occurs at least twice. */
  lemma CountTwice<T>(s: seq<T>, x: int, y: int)
    requires 0 <= x < y < |s| && s[x] == s[y]
    ensures multiset(s)[s[x]] >= 2
  {
    assert s == s[..y] + [s[y]] + s[y + 1..];
    assert s[..y][x] == s[x];
    assert s[x] in multiset(s[..y]);
  }

  // ---------------------------------------------------------------------------
  // deleteEntry
  // ---------------------------------------------------------------------------

  function IdDiffers(id: string): Entry -> bool
  {
    (e: Entry) => e.id != id
  }

  /** `deleteEntry`: the notes whose id is not `id`, in their order. */
  function DeleteEntry(entries: seq<Entry>, id: string): (r: seq<Entry>)
    ensures forall k :: 0 <= k < |r| ==> r[k].id != id && r[k] in entries
    ensures forall k :: 0 <= k < |entries| && entries[k].id != id ==> entries[k] in r
  {
    Filter(entries, IdDiffers(id))
  }

  /** Deleting keeps every other note as often as it occurred and drops all
      notes with the id; it distributes over concatenation, so the survivors
      keep their relative order. */
  lemma DeleteEntryExact(entries: seq<Entry>, more: seq<Entry>, id: string)
    ensures forall e :: multiset(DeleteEntry(entries, id))[e] == (if e.id != id then multiset(entries)[e] else 0)
    ensures DeleteEntry(entries + more, id) == DeleteEntry(entries, id) + DeleteEntry(more, id)
  {
    forall e ensures multiset(DeleteEntry(entries, id))[e] == (if e.id != id then multiset(entries)[e] else 0) {
      FilterMultiset(entries, IdDiffers(id), e);
    }
    FilterConcat(entries, more, IdDiffers(id));
  }

  /** A list sorted by date stays sorted after a delete. */
  lemma DeleteEntrySorted(entries: seq<Entry>, id: string)
    requires SortedBy(entries, EntryDateKey)
    ensures SortedBy(DeleteEntry(entries, id), EntryDateKey)
  {
    FilterSorted(entries, IdDiffers(id), EntryDateKey);
  }

  /** Deleting twice is deleting once, and deleting an id no note has changes nothing. */
  lemma DeleteEntryIdempotent(entries: seq<Entry>, id: string)
    ensures DeleteEntry(DeleteEntry(entries, id), id) == DeleteEntry(entries, id)
    ensures (forall k :: 0 <= k < |entries| ==> entries[k].id != id) ==> DeleteEntry(entries, id) == entries
  {
    FilterIdempotent(entries, IdDiffers(id));
    if forall k :: 0 <= k < |entries| ==> entries[k].id != id {
      FilterAll(entries, IdDiffers(id));
    }
  }

  // ---------------------------------------------------------------------------
  // loadEntries / saveEntries
  // ---------------------------------------------------------------------------

  /** A note as read back from storage. Fields the stored JSON may lack, or
      hold as `null`, are `None`. */
  datatype StoredRecord = StoredRecord(
    id: string, date: string, text: Option<string>, createdAt: Option<int>, images: Option<seq<EntryImage>>)

  /** What the storage slot holds: nothing (no item, or the empty string), text
      that `JSON.parse` rejects or whose value is not a list of records (the
      `map` call throws), or a list of records. */
  datatype StoredValue = Absent | Unparseable | Records(records: seq<StoredRecord>)

  /** The defaults `loadEntries` fills in; `now` is the clock reading `Date.now()`. */
  function Restore(rec: StoredRecord, now: int): (e: Entry)
    ensures e.id == rec.id && e.date == rec.date
    ensures e.text == (if rec.text.Some? then rec.text.value else "")
    ensures e.createdAt == (if rec.createdAt.Some? then rec.createdAt.value else now)
    ensures e.images == (if rec.images.Some? then rec.images.value else [])
  {
    Entry(
      rec.id, rec.date,
      match rec.text case Some(t) => t case None => "",
      match rec.createdAt case Some(c) => c case None => now,
      match rec.images case Some(i) => i case None => [])
  }

  /** `loadEntries`: nothing stored or unreadable gives no notes; otherwise each
      record becomes a note with its missing fields defaulted, in stored order. */
  function LoadEntries(stored: StoredValue, now: int): (r: seq<Entry>)
    ensures !stored.Records? ==> r == []
    ensures stored.Records? ==> |r| == |stored.records|
    ensures stored.Records? ==> forall k :: 0 <= k < |r| ==> r[k] == Restore(stored.records[k], now)
  {
    match stored
    case Records(recs) => seq(|recs|, k requires 0 <= k < |recs| => Restore(recs[k], now))
    case _ => []
  }

  /** `saveEntries`: every field of every note is written. */
  function SaveEntries(entries: seq<Entry>): (v: StoredValue)
    ensures v.Records? && |v.records| == |entries|
  {
    Records(seq(|entries|, k requires 0 <= k < |entries| =>
      StoredRecord(entries[k].id, entries[k].date, Some(entries[k].text), Some(entries[k].createdAt), Some(entries[k].images))))
  }

  /** Loading what was saved gives back the same notes, whatever the clock says. */
  lemma LoadSaveRoundTrip(entries: seq<Entry>, now: int)
    ensures LoadEntries(SaveEntries(entries), now) == entries
  {
  }
}
