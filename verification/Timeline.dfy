/** The places the window's time controls offer: the backups, and the entries
    the desktop's Trash adds between them
    (crates/backtrack-gtk/src/model/trash.rs). */
module Timeline {
  import Recovery
  import opened Sorting
  import opened Text

  /** What the window knows of a backup, or of a Trash entry. */
  datatype Archive = Archive(number: int, ts: int, catalogued: bool)

  datatype Trashed = Trashed(path: string, deletedAt: int, counts: bool)

  /** Backups as the catalogue gives them: newest first, by number and by time. */
  ghost predicate Ordered(archives: seq<Archive>) {
    && (forall i :: 0 <= i < |archives| ==> archives[i].number > 0)
    && (forall i, j :: 0 <= i < j < |archives| ==>
          archives[i].number > archives[j].number && archives[i].ts > archives[j].ts)
  }

  // ---- Numbers ----

  predicate IsEntry(number: int) {
    number < 0
  }

  function EntrySeq(base: Option<int>): int {
    -((if base.Some? then base.value else 0) + 1)
  }

  /** The backup before an entry's gap; none, before the first backup. */
  function BaseOf(entry: int): Option<int>
    requires IsEntry(entry)
  {
    if -entry - 1 > 0 then Some(-entry - 1) else None
  }

  /** The newest catalogued backup taken at or before `at`. */
  function BaseFor(archives: seq<Archive>, at: int): Option<int> {
    if archives == [] then None
    else if archives[0].catalogued && archives[0].ts <= at then Some(archives[0].number)
    else BaseFor(archives[1..], at)
  }

  function EntryAt(archives: seq<Archive>, at: int): int {
    EntrySeq(BaseFor(archives, at))
  }

  predicate Counted(folder: string, item: Trashed) {
    item.counts && Recovery.Within(item.path, folder)
  }

  // ---- Order ----

  predicate Newer(a: Archive, b: Archive) {
    a.ts > b.ts
  }

  /** A stable sort by time, newest first. */
  function SortNewest(places: seq<Archive>): seq<Archive> {
    Sort(Newer, places)
  }

  ghost predicate NewestFirst(places: seq<Archive>) {
    forall i, j :: 0 <= i < j < |places| ==> places[i].ts >= places[j].ts
  }

  lemma SortsNewest(places: seq<Archive>)
    ensures NewestFirst(SortNewest(places))
    ensures forall a :: a in SortNewest(places) <==> a in places
  {
    SortSorts(Newer, places);
    forall a
      ensures a in SortNewest(places) <==> a in places
    {
      SortKeeps(Newer, places, a);
    }
  }

  // ---- The Trash's entries ----

  /** A deletion noted among the entries, which are kept by number. */
  function Note(entries: seq<Archive>, number: int, ts: int): seq<Archive> {
    if entries == [] || number < entries[0].number then [Archive(number, ts, true)] + entries
    else if entries[0].number == number then
      [entries[0].(ts := if entries[0].ts >= ts then entries[0].ts else ts)] + entries[1..]
    else [entries[0]] + Note(entries[1..], number, ts)
  }

  /** The latest deletion of each gap with one in it that counts, by entry. */
  function Latest(folder: string, archives: seq<Archive>, items: seq<Trashed>): seq<Archive> {
    if items == [] then []
    else
      var rest := Latest(folder, archives, items[..|items| - 1]);
      var item := items[|items| - 1];
      if Counted(folder, item) then Note(rest, EntryAt(archives, item.deletedAt), item.deletedAt) else rest
  }

  /** The entries listed for a folder, newest first. */
  function EntriesFor(folder: string, archives: seq<Archive>, items: seq<Trashed>): seq<Archive> {
    SortNewest(Latest(folder, archives, items))
  }

  ghost predicate ByNumber(entries: seq<Archive>) {
    && (forall i :: 0 <= i < |entries| ==> entries[i].catalogued)
    && (forall i, j :: 0 <= i < j < |entries| ==> entries[i].number < entries[j].number)
  }

  /** What is in the entries once one is noted: the others as they were, and the
      one noted at the later of the two times. */
  ghost predicate Noted(entries: seq<Archive>, number: int, ts: int, after: seq<Archive>) {
    && (forall a: Archive :: a.number != number ==> (a in after <==> a in entries))
    && (forall a :: a in entries && a.number == number ==>
          Archive(number, if a.ts >= ts then a.ts else ts, true) in after)
    && ((forall a :: a in entries ==> a.number != number) ==> Archive(number, ts, true) in after)
  }

  lemma {:induction false} NoteHolds(entries: seq<Archive>, number: int, ts: int)
    requires ByNumber(entries)
    ensures ByNumber(Note(entries, number, ts)) && Noted(entries, number, ts, Note(entries, number, ts))
  {
    if entries == [] || number < entries[0].number {
      NoteComesFirst(entries, number, ts);
    } else if entries[0].number == number {
      NoteMerges(entries, number, ts);
    } else {
      FirstOf(entries);
      hide ByNumber, Noted;
      NoteHolds(entries[1..], number, ts);
      assert Note(entries, number, ts) == [entries[0]] + Note(entries[1..], number, ts);
      hide Note;
      assert entries == [entries[0]] + entries[1..];
      NotedAfter(entries[0], entries[1..], number, ts, Note(entries[1..], number, ts));
    }
  }

  lemma FirstOf(entries: seq<Archive>)
    requires ByNumber(entries) && entries != []
    ensures entries[0].catalogued && ByNumber(entries[1..])
    ensures forall a :: a in entries[1..] ==> entries[0].number < a.number
  {
  }

  lemma NoteComesFirst(entries: seq<Archive>, number: int, ts: int)
    requires ByNumber(entries) && (entries == [] || number < entries[0].number)
    ensures ByNumber(Note(entries, number, ts)) && Noted(entries, number, ts, Note(entries, number, ts))
  {
    var one := Archive(number, ts, true);
    assert Note(entries, number, ts) == [one] + entries;
    forall a
      ensures a in [one] + entries <==> a == one || a in entries
    {
    }
    forall a | a in entries
      ensures number < a.number
    {
      var k :| 0 <= k < |entries| && entries[k] == a;
      assert entries[0].number <= entries[k].number;
    }
    NotedOrder(one, entries);
    hide Note, ByNumber;
  }

  lemma NoteMerges(entries: seq<Archive>, number: int, ts: int)
    requires ByNumber(entries) && entries != [] && entries[0].number == number
    ensures ByNumber(Note(entries, number, ts)) && Noted(entries, number, ts, Note(entries, number, ts))
  {
    var first, rest := entries[0], entries[1..];
    var merged := first.(ts := if first.ts >= ts then first.ts else ts);
    assert Note(entries, number, ts) == [merged] + rest;
    forall a
      ensures a in entries <==> a == first || a in rest
      ensures a in [merged] + rest <==> a == merged || a in rest
    {
    }
    hide Note;
  }

  lemma NotedAfter(first: Archive, entries: seq<Archive>, number: int, ts: int, after: seq<Archive>)
    requires first.catalogued && first.number < number && forall a :: a in entries ==> first.number < a.number
    requires ByNumber(after) && Noted(entries, number, ts, after)
    ensures ByNumber([first] + after) && Noted([first] + entries, number, ts, [first] + after)
  {
    forall a
      ensures a in [first] + entries <==> a == first || a in entries
      ensures a in [first] + after <==> a == first || a in after
    {
    }
    forall a | a in after
      ensures first.number < a.number
    {
    }
    NotedOrder(first, after);
    hide ByNumber;
  }

  lemma NotedOrder(first: Archive, after: seq<Archive>)
    requires first.catalogued && ByNumber(after) && forall a :: a in after ==> first.number < a.number
    ensures ByNumber([first] + after)
  {
    forall i | 0 <= i < |after|
      ensures first.number < after[i].number
    {
      assert after[i] in after;
    }
  }

  /** `item` is in the gap of an entry, and counts at or below `folder`. */
  ghost predicate InGap(folder: string, archives: seq<Archive>, number: int, item: Trashed) {
    Counted(folder, item) && EntryAt(archives, item.deletedAt) == number
  }

  /** `ts` is the latest deletion among the items of an entry. */
  ghost predicate LatestIn(folder: string, archives: seq<Archive>, items: seq<Trashed>, number: int, ts: int) {
    && (exists item :: item in items && InGap(folder, archives, number, item) && item.deletedAt == ts)
    && (forall item :: item in items && InGap(folder, archives, number, item) ==> item.deletedAt <= ts)
  }

  lemma {:induction false} LatestSorted(folder: string, archives: seq<Archive>, items: seq<Trashed>)
    ensures ByNumber(Latest(folder, archives, items))
  {
    if items != [] {
      LatestSorted(folder, archives, items[..|items| - 1]);
      var item := items[|items| - 1];
      NoteHolds(Latest(folder, archives, items[..|items| - 1]), EntryAt(archives, item.deletedAt), item.deletedAt);
    }
  }

  /** How one more item moves an entry's latest deletion. */
  lemma OneMore(folder: string, archives: seq<Archive>, rest: seq<Trashed>, item: Trashed, number: int, ts: int)
    requires LatestIn(folder, archives, rest, number, ts)
    ensures InGap(folder, archives, number, item) ==>
              LatestIn(folder, archives, rest + [item], number, if ts >= item.deletedAt then ts else item.deletedAt)
    ensures !InGap(folder, archives, number, item) ==> LatestIn(folder, archives, rest + [item], number, ts)
  {
    var items := rest + [item];
    var latest :| latest in rest && InGap(folder, archives, number, latest) && latest.deletedAt == ts;
    assert latest in items && item in items;
  }

  lemma FirstOne(folder: string, archives: seq<Archive>, rest: seq<Trashed>, item: Trashed, number: int)
    requires InGap(folder, archives, number, item)
    requires forall other :: other in rest ==> !InGap(folder, archives, number, other)
    ensures LatestIn(folder, archives, rest + [item], number, item.deletedAt)
  {
    assert item in rest + [item];
  }

  lemma {:induction false} LatestIsLatest(folder: string, archives: seq<Archive>, items: seq<Trashed>, a: Archive)
    requires a in Latest(folder, archives, items)
    ensures a.catalogued && LatestIn(folder, archives, items, a.number, a.ts)
  {
    LatestSorted(folder, archives, items);
    if items != [] {
      var rest, item := items[..|items| - 1], items[|items| - 1];
      assert items == rest + [item];
      var before, number := Latest(folder, archives, rest), EntryAt(archives, item.deletedAt);
      LatestSorted(folder, archives, rest);
      if Counted(folder, item) {
        NoteHolds(before, number, item.deletedAt);
      }
      if !Counted(folder, item) || a.number != number {
        LatestIsLatest(folder, archives, rest, a);
        OneMore(folder, archives, rest, item, a.number, a.ts);
      } else if b :| b in before && b.number == number {
        LatestIsLatest(folder, archives, rest, b);
        OneMore(folder, archives, rest, item, b.number, b.ts);
        OneOfEach(Latest(folder, archives, items), a,
                  Archive(number, if b.ts >= item.deletedAt then b.ts else item.deletedAt, true));
      } else {
        OneOfEach(Latest(folder, archives, items), a, Archive(number, item.deletedAt, true));
        forall other | other in rest
          ensures !InGap(folder, archives, number, other)
        {
          if InGap(folder, archives, number, other) {
            var b := InSome(folder, archives, rest, other);
          }
        }
        FirstOne(folder, archives, rest, item, number);
      }
    }
  }

  lemma OneOfEach(entries: seq<Archive>, a: Archive, b: Archive)
    requires ByNumber(entries) && a in entries && b in entries && a.number == b.number
    ensures a == b
  {
  }

  /** An item that counts is in the gap of some entry. */
  lemma {:induction false} InSome(folder: string, archives: seq<Archive>, items: seq<Trashed>, item: Trashed)
    returns (a: Archive)
    requires item in items && Counted(folder, item)
    ensures a in Latest(folder, archives, items) && a.number == EntryAt(archives, item.deletedAt)
  {
    var rest, last := items[..|items| - 1], items[|items| - 1];
    assert items == rest + [last];
    var before, number := Latest(folder, archives, rest), EntryAt(archives, last.deletedAt);
    LatestSorted(folder, archives, rest);
    if Counted(folder, last) {
      NoteHolds(before, number, last.deletedAt);
    }
    if item in rest {
      a := InSome(folder, archives, rest, item);
      if Counted(folder, last) && a.number == number {
        a := Archive(number, if a.ts >= last.deletedAt then a.ts else last.deletedAt, true);
      }
    } else if b :| b in before && b.number == number {
      a := Archive(number, if b.ts >= last.deletedAt then b.ts else last.deletedAt, true);
    } else {
      a := Archive(number, last.deletedAt, true);
    }
  }

  /** An entry is listed exactly when something that counts was moved to the
      Trash in its gap, and is timed at the latest such deletion. */
  lemma EntriesSpec(folder: string, archives: seq<Archive>, items: seq<Trashed>, a: Archive)
    ensures a in EntriesFor(folder, archives, items) <==>
            a.catalogued && LatestIn(folder, archives, items, a.number, a.ts)
    ensures forall item :: InGap(folder, archives, a.number, item) <==>
            item.counts && Recovery.Within(item.path, folder) && EntryAt(archives, item.deletedAt) == a.number
  {
    SortsNewest(Latest(folder, archives, items));
    if a in Latest(folder, archives, items) {
      LatestIsLatest(folder, archives, items, a);
    }
    if a.catalogued && LatestIn(folder, archives, items, a.number, a.ts) {
      var item :| item in items && InGap(folder, archives, a.number, item) && item.deletedAt == a.ts;
      var b := InSome(folder, archives, items, item);
      LatestIsLatest(folder, archives, items, b);
    }
  }

  /** The base is the first, and so the newest, catalogued backup not after `at`. */
  lemma {:induction false} BaseSpec(archives: seq<Archive>, at: int) returns (i: nat)
    ensures i <= |archives|
    ensures forall j :: 0 <= j < i ==> !(archives[j].catalogued && archives[j].ts <= at)
    ensures i == |archives| ==> BaseFor(archives, at) == None
    ensures i < |archives| ==>
              archives[i].catalogued && archives[i].ts <= at && BaseFor(archives, at) == Some(archives[i].number)
  {
    if archives == [] {
      i := 0;
    } else if archives[0].catalogued && archives[0].ts <= at {
      i := 0;
    } else {
      i := BaseSpec(archives[1..], at);
      i := i + 1;
    }
  }

  /** An entry's number names the newest catalogued backup taken no later than
      it, or none where there is none. */
  lemma EntryHasBase(folder: string, archives: seq<Archive>, items: seq<Trashed>, entry: Archive)
    requires Ordered(archives) && entry in EntriesFor(folder, archives, items)
    ensures IsEntry(entry.number) && entry.catalogued
    ensures BaseOf(entry.number).Some? ==>
              exists a :: a in archives && a.catalogued && a.number == BaseOf(entry.number).value && a.ts <= entry.ts &&
                          forall b :: b in archives && b.catalogued && b.ts <= entry.ts ==> b.ts <= a.ts
    ensures BaseOf(entry.number).None? ==> forall b :: b in archives && b.catalogued ==> entry.ts < b.ts
  {
    EntriesSpec(folder, archives, items, entry);
    var item :| item in items && InGap(folder, archives, entry.number, item) && item.deletedAt == entry.ts;
    var i := BaseSpec(archives, item.deletedAt);
    assert forall b :: b in archives ==> exists j :: 0 <= j < |archives| && archives[j] == b;
    assert i < |archives| ==> archives[i] in archives;
  }
}
