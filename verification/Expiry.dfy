/** The date a local archive may be discarded from, over runs of syncs and of
    backups that reach the real destination
    (crates/backtrack-core/src/index/writer.rs). */
module Expiry {
  import opened Text
  import opened Index
  import opened IndexRemove
  import opened IndexOrder
  import opened IndexWriter
  import opened Sorting

  /** A store matched to what its repository lists, or the local archives marked. */
  datatype Change = Matches(repo: string, entries: seq<Meta>) | Marks(at: int)

  function Stayed(rows: seq<Row>, repo: string, entries: seq<Meta>): seq<Row> {
    Surviving(rows, Wanted(rows, repo, entries))
  }

  /** Whether a sync has anything to slot in, and so makes the rows again. */
  predicate Restacks(rows: seq<Row>, change: Change) {
    change.Matches? && Missing(Stayed(rows, change.repo, change.entries), change.repo, change.entries) != []
  }

  /** The rows `Writer.SyncArchives` or `Writer.MarkExpirable` leaves. */
  function RowsAfter(rows: seq<Row>, change: Change): seq<Row> {
    match change
    case Marks(at) => Marked(rows, at)
    case Matches(repo, entries) =>
      var kept := Stayed(rows, repo, entries);
      var missing := Missing(kept, repo, entries);
      if missing == [] then kept else Stack(Order(kept, missing), repo)
  }

  /** They are the rows the writer's own sync leaves. */
  lemma AsWritten(rows: seq<Row>, versions: set<Version>, repo: string, entries: seq<Meta>, left: set<Version>,
                  afterRows: seq<Row>, after: set<Version>)
    requires Matched(rows, versions, repo, entries, left, afterRows, after)
    ensures afterRows == RowsAfter(rows, Matches(repo, entries))
  {
  }

  /** A sync makes the rows again exactly if its store lists a name that no row
      of that store has. */
  lemma RestacksIff(rows: seq<Row>, repo: string, entries: seq<Meta>)
    ensures Restacks(rows, Matches(repo, entries)) <==>
            exists m :: m in entries && forall row :: row in rows && row.repo == repo ==> row.name != m.name
  {
    var kept := Stayed(rows, repo, entries);
    var missing := Missing(kept, repo, entries);
    forall m | m in entries
      ensures m in missing <==> forall row :: row in rows && row.repo == repo ==> row.name != m.name
    {
      var k :| 0 <= k < |entries| && entries[k] == m;
      if i :| 0 <= i < |kept| && kept[i].repo == repo && kept[i].name == m.name {
        StayedHolds(rows, repo, entries, kept[i]);
      }
      if row :| row in rows && row.repo == repo && row.name == m.name {
        StayedHolds(rows, repo, entries, row);
        var i :| 0 <= i < |kept| && kept[i] == row;
      }
    }
    hide Stayed, Missing;
    if missing != [] {
      assert missing[0] in missing;
    }
  }

  predicate Outlives(row: Row, change: Change) {
    change.Matches? && row.repo == change.repo ==> Entered(change.entries, row.name)
  }

  lemma StayedHolds(rows: seq<Row>, repo: string, entries: seq<Meta>, row: Row)
    ensures row in Stayed(rows, repo, entries) <==> row in rows && Outlives(row, Matches(repo, entries))
  {
    KeptHolds(rows, Wanted(rows, repo, entries), row);
  }

  /** Made again, a row of an archive that was there has no date. */
  lemma StackedHolds(kept: seq<Row>, missing: seq<Meta>, repo: string, row: Row)
    requires row in kept
    ensures row.(expirable := None) in Stack(Order(kept, missing), repo)
  {
    var k :| 0 <= k < |kept| && kept[k] == row;
    var slot := Existing(k, row);
    assert (Slots(kept) + Newcomers(missing))[k] == slot;
    OrderMembers(kept, missing, slot);
    var order := Order(kept, missing);
    var i :| 0 <= i < |order| && order[i] == slot;
    hide Order;
    assert Stack(order, repo)[i] == row.(expirable := None);
  }

  lemma StackedDateless(kept: seq<Row>, missing: seq<Meta>, repo: string, row: Row)
    requires row in Stack(Order(kept, missing), repo)
    ensures row.expirable == None
  {
    hide Order;
  }

  /** Of the archives that stay, those keep their row, and the date in it, that
      had none or whose sync had nothing to slot in; and only those. */
  lemma SyncKeepsDateIff(rows: seq<Row>, repo: string, entries: seq<Meta>, row: Row)
    requires row in rows && Outlives(row, Matches(repo, entries))
    ensures row in RowsAfter(rows, Matches(repo, entries)) <==>
            !Restacks(rows, Matches(repo, entries)) || row.expirable.None?
  {
    var kept := Stayed(rows, repo, entries);
    var missing := Missing(kept, repo, entries);
    StayedHolds(rows, repo, entries, row);
    hide Stayed, Missing, Order;
    if missing != [] {
      StackedHolds(kept, missing, repo, row);
      assert row.expirable.None? ==> row.(expirable := None) == row;
      if row in Stack(Order(kept, missing), repo) {
        StackedDateless(kept, missing, repo, row);
      }
    }
  }

  // ---- Over a run ----

  function AfterAll(rows: seq<Row>, changes: seq<Change>): seq<Row>
    decreases |changes|
  {
    if changes == [] then rows
    else RowsAfter(AfterAll(rows, changes[..|changes| - 1]), changes[|changes| - 1])
  }

  /** Whether the `k`th change makes the rows again. */
  predicate RestacksAt(rows: seq<Row>, changes: seq<Change>, k: nat)
    requires k < |changes|
  {
    Restacks(AfterAll(rows, changes[..k]), changes[k])
  }

  /** How a change moves a local archive's date: a first marking sets it, and it
      is lost whenever the rows are made again. */
  function DateNext(rows: seq<Row>, change: Change, date: Option<int>): Option<int> {
    match change
    case Marks(at) => if date.None? then Some(at) else date
    case Matches(_, _) => if Restacks(rows, change) then None else date
  }

  function DateAfter(rows: seq<Row>, changes: seq<Change>, date: Option<int>): Option<int>
    decreases |changes|
  {
    if changes == [] then date
    else
      var n := |changes| - 1;
      DateNext(AfterAll(rows, changes[..n]), changes[n], DateAfter(rows, changes[..n], date))
  }

  /** So it does in the rows, for as long as the archive is in the catalogue. */
  lemma {:induction false} DatesFollow(rows: seq<Row>, changes: seq<Change>, row: Row)
    requires row in rows && IsLocal(row.repo) && forall k :: 0 <= k < |changes| ==> Outlives(row, changes[k])
    ensures row.(expirable := DateAfter(rows, changes, row.expirable)) in AfterAll(rows, changes)
    decreases |changes|
  {
    if changes == [] {
      assert row.(expirable := row.expirable) == row;
    } else {
      var n := |changes| - 1;
      hide Outlives, RowsAfter, DateNext, IsLocal;
      DatesFollow(rows, changes[..n], row);
      DateFollows(AfterAll(rows, changes[..n]), changes[n], row, DateAfter(rows, changes[..n], row.expirable));
    }
  }

  lemma DateFollows(rows: seq<Row>, change: Change, row: Row, date: Option<int>)
    requires row.(expirable := date) in rows && IsLocal(row.repo) && Outlives(row, change)
    ensures row.(expirable := DateNext(rows, change, date)) in RowsAfter(rows, change)
  {
    var dated := row.(expirable := date);
    match change {
      case Marks(at) =>
        var i :| 0 <= i < |rows| && rows[i] == dated;
        assert Marked(rows, at)[i] in Marked(rows, at);
      case Matches(repo, entries) =>
        FollowsSync(rows, repo, entries, dated);
        hide Restacks, RowsAfter;
    }
  }

  lemma FollowsSync(rows: seq<Row>, repo: string, entries: seq<Meta>, row: Row)
    requires row in rows && Outlives(row, Matches(repo, entries))
    ensures row.(expirable := if Restacks(rows, Matches(repo, entries)) then None else row.expirable) in
            RowsAfter(rows, Matches(repo, entries))
  {
    var kept := Stayed(rows, repo, entries);
    var missing := Missing(kept, repo, entries);
    StayedHolds(rows, repo, entries, row);
    hide Stayed, Missing, Order;
    if missing != [] {
      StackedHolds(kept, missing, repo, row);
    } else {
      assert row.(expirable := row.expirable) == row;
    }
  }

  /** The first marking from the `k`th change on. */
  function FirstMark(changes: seq<Change>, k: nat): Option<int>
    requires k <= |changes|
    decreases |changes| - k
  {
    if k == |changes| then None
    else if changes[k].Marks? then Some(changes[k].at)
    else FirstMark(changes, k + 1)
  }

  /** The change after the last that makes the rows again; or 0. */
  function SinceRestacked(rows: seq<Row>, changes: seq<Change>): (k: nat)
    ensures k <= |changes|
    decreases |changes|
  {
    if changes == [] then 0
    else if RestacksAt(rows, changes, |changes| - 1) then |changes|
    else SinceRestacked(rows, changes[..|changes| - 1])
  }

  lemma {:induction false} RestackedThen(rows: seq<Row>, changes: seq<Change>)
    requires SinceRestacked(rows, changes) > 0
    ensures RestacksAt(rows, changes, SinceRestacked(rows, changes) - 1)
    decreases |changes|
  {
    hide RestacksAt;
    var n := |changes| - 1;
    if !RestacksAt(rows, changes, n) {
      RestackedThen(rows, changes[..n]);
      RestacksSoFar(rows, changes, n, SinceRestacked(rows, changes) - 1);
    }
  }

  lemma {:induction false} NotRestackedSince(rows: seq<Row>, changes: seq<Change>, k: nat)
    requires SinceRestacked(rows, changes) <= k < |changes|
    ensures !RestacksAt(rows, changes, k)
    decreases |changes|
  {
    hide RestacksAt;
    var n := |changes| - 1;
    if k < n {
      NotRestackedSince(rows, changes[..n], k);
      RestacksSoFar(rows, changes, n, k);
    }
  }

  lemma RestacksSoFar(rows: seq<Row>, changes: seq<Change>, n: nat, k: nat)
    requires k < n <= |changes|
    ensures RestacksAt(rows, changes[..n], k) <==> RestacksAt(rows, changes, k)
  {
    hide Restacks, AfterAll;
    assert changes[..n][..k] == changes[..k];
  }

  lemma {:induction false} FirstMarkGoesOn(changes: seq<Change>, k: nat)
    requires changes != [] && k < |changes|
    ensures var n := |changes| - 1;
            FirstMark(changes, k) ==
            match FirstMark(changes[..n], k)
            case Some(at) => Some(at)
            case None => if changes[n].Marks? then Some(changes[n].at) else None
    decreases |changes| - k
  {
    if k < |changes| - 1 {
      FirstMarkGoesOn(changes, k + 1);
    }
  }

  /** What an archive's date comes to: the one it had, if the rows were not made
      again since; and otherwise the first marking since they last were. */
  lemma {:induction false} DateIs(rows: seq<Row>, changes: seq<Change>, date: int)
    ensures DateAfter(rows, changes, Some(date)) ==
            if SinceRestacked(rows, changes) == 0 then Some(date) else FirstMark(changes, SinceRestacked(rows, changes))
    decreases |changes|
  {
    if changes != [] {
      var n := |changes| - 1;
      DateIs(rows, changes[..n], date);
      hide RestacksAt;
      if SinceRestacked(rows, changes) <= n && SinceRestacked(rows, changes) > 0 {
        FirstMarkGoesOn(changes, SinceRestacked(rows, changes));
      }
    }
  }

  /** An archive's clock is reset, over a run of syncs and markings, if and only
      if a sync made the rows again and the first marking since the last such is
      not for the very same date. */
  lemma ClockResetIff(rows: seq<Row>, changes: seq<Change>, row: Row, date: int)
    requires row in rows && row.expirable == Some(date) && IsLocal(row.repo)
    requires forall k :: 0 <= k < |changes| ==> Outlives(row, changes[k])
    ensures var since := SinceRestacked(rows, changes);
            && row.(expirable := DateAfter(rows, changes, Some(date))) in AfterAll(rows, changes)
            && (forall k :: since <= k < |changes| ==> !RestacksAt(rows, changes, k))
            && (DateAfter(rows, changes, Some(date)) != Some(date) <==>
                  since > 0 && RestacksAt(rows, changes, since - 1) && FirstMark(changes, since) != Some(date))
  {
    DatesFollow(rows, changes, row);
    DateIs(rows, changes, date);
    hide RestacksAt, DateAfter, AfterAll, SinceRestacked, FirstMark;
    forall k | SinceRestacked(rows, changes) <= k < |changes|
      ensures !RestacksAt(rows, changes, k)
    {
      NotRestackedSince(rows, changes, k);
    }
    if SinceRestacked(rows, changes) > 0 {
      RestackedThen(rows, changes);
    }
  }

  /** A snapshot due to go at `first`, a backup slotted in before it, and the next
      marking: the snapshot is due to go at `second` instead. */
  lemma SlottingResetsClock(row: Row, older: Meta, first: int, second: int)
    requires IsLocal(row.repo) && row.expirable == Some(first) && older.ts < row.ts
    ensures AfterAll([row], [Matches(PRIMARY, [older]), Marks(second)]) ==
            [Row(older.name, older.ts, PRIMARY, true, None), row.(expirable := Some(second))]
  {
    hide RowsAfter, IsLocal;
    var sync, mark := Matches(PRIMARY, [older]), Marks(second);
    assert [sync, mark][..1] == [sync] && [sync][..0] == [];
    assert AfterAll([row], [sync]) == RowsAfter([row], sync);
    SlotsBefore(row, older);
    MarksSecond(row, older, second);
  }

  lemma SlotsBefore(row: Row, older: Meta)
    requires IsLocal(row.repo) && older.ts < row.ts
    ensures RowsAfter([row], Matches(PRIMARY, [older])) ==
            [Row(older.name, older.ts, PRIMARY, true, None), row.(expirable := None)]
  {
    OrderOfTwo(row, older);
    MissingAlone(row, older);
    hide Order, Missing, Wanted, Surviving, Stack, Restacked, IsLocal;
    AllSurvive([row], [true]);
    assert Stayed([row], PRIMARY, [older]) == [row];
    StackOfTwo(row, older);
  }

  lemma StackOfTwo(row: Row, older: Meta)
    ensures Stack([Newcomer(older), Existing(0, row)], PRIMARY) ==
            [Row(older.name, older.ts, PRIMARY, true, None), row.(expirable := None)]
  {
  }

  lemma MissingAlone(row: Row, older: Meta)
    requires IsLocal(row.repo)
    ensures Wanted([row], PRIMARY, [older]) == [true] && Missing([row], PRIMARY, [older]) == [older]
  {
    assert !Recorded([row], PRIMARY, older.name);
    hide Recorded;
    assert Missing([row], PRIMARY, []) == [];
  }

  lemma OrderOfTwo(row: Row, older: Meta)
    requires older.ts < row.ts
    ensures Order([row], [older]) == [Newcomer(older), Existing(0, row)]
  {
    var kept, slot := Existing(0, row), Newcomer(older);
    assert Slots([row]) + Newcomers([older]) == [kept, slot];
    assert Sort(Precedes, [slot]) == [slot];
    assert Precedes(slot, kept) && Insert(Precedes, kept, [slot]) == [slot, kept] && [kept, slot][1..] == [slot];
  }

  lemma MarksSecond(row: Row, older: Meta, second: int)
    requires IsLocal(row.repo)
    ensures RowsAfter([Row(older.name, older.ts, PRIMARY, true, None), row.(expirable := None)], Marks(second)) ==
            [Row(older.name, older.ts, PRIMARY, true, None), row.(expirable := Some(second))]
  {
  }
}
