/** Which backups a folder lists (crates/backtrack-core/src/index/reader.rs,
    where the catalogue answers it), and why one left out is no loss to the
    window. */
module Listings {
  import opened Index
  import opened IndexOrder
  import opened Text
  import Timeline
  import Window

  /** The folder asked about: the root of the tree, one the catalogue has no path
      for, or one with these paths at and below it. */
  datatype Folder = Root | Unknown | Under(below: set<int>)

  predicate IsRead(rows: seq<Row>, s: int) {
    1 <= s <= |rows| && !rows[s - 1].pending
  }

  /** The newest archive read, or nought. */
  function Newest(rows: seq<Row>): (newest: nat)
    ensures newest == 0 || IsRead(rows, newest)
    ensures forall s :: IsRead(rows, s) ==> s <= newest
  {
    if rows == [] then 0
    else if !rows[|rows| - 1].pending then |rows|
    else
      var older := rows[..|rows| - 1];
      assert forall s :: IsRead(rows, s) ==> IsRead(older, s);
      Newest(older)
  }

  /** The numbers a folder lists: where something below it was last seen as it
      was, and the newest. Folders' own rows do not count. */
  function ListedFor(rows: seq<Row>, versions: set<Version>, folder: Folder): set<int> {
    var newest := Newest(rows);
    if newest == 0 then {}
    else match folder
      case Root => set s | 1 <= s <= |rows| && IsRead(rows, s)
      case Unknown => {newest}
      case Under(below) =>
        (set v | v in versions && v.path in below && v.content.kind != "dir" && v.last < newest :: v.last) + {newest}
  }

  /** The files an archive shows in a folder, at any depth. */
  function FilesIn(versions: set<Version>, folder: Folder, s: int): set<Held> {
    set h | h in Shown(versions, s) && h.content.kind != "dir" &&
            (folder.Root? || (folder.Under? && h.path in folder.below))
  }

  /** Nothing is claimed of an archive that has not been read. */
  ghost predicate Silent(rows: seq<Row>, versions: set<Version>) {
    forall s :: 1 <= s <= |rows| && rows[s - 1].pending ==> Shown(versions, s) == {}
  }

  // ---- What is listed ----

  /** Every backup listed has been read. */
  lemma ListedIsRead(rows: seq<Row>, versions: set<Version>, folder: Folder, s: int)
    requires InRange(versions, |rows|) && Silent(rows, versions) && s in ListedFor(rows, versions, folder)
    ensures IsRead(rows, s)
  {
    if folder.Under? && s != Newest(rows) {
      var v :| v in versions && v.last == s;
      assert Held(v.path, v.content) in Shown(versions, s);
    }
  }

  /** Rows that encode a history list, below a folder, the newest and each older
      one with a file that the archive after it does not hold as it was. */
  lemma ListedExactly(rows: seq<Row>, versions: set<Version>, history: seq<Listing>, below: set<int>, s: int)
    requires Encodes(versions, history) && |history| == |rows| && 1 <= s < Newest(rows)
    ensures s in ListedFor(rows, versions, Under(below)) <==>
            FilesIn(versions, Under(below), s) - FilesIn(versions, Under(below), s + 1) != {}
  {
    EncodedShows(versions, history, s);
    EncodedShows(versions, history, s + 1);
    if s in ListedFor(rows, versions, Under(below)) {
      var v :| v in versions && v.path in below && v.content.kind != "dir" && v.last == s;
      assert IsRun(history, v) && Has(history, s, v.path, v.content) && !Has(history, s + 1, v.path, v.content);
      assert Held(v.path, v.content) in FilesIn(versions, Under(below), s) - FilesIn(versions, Under(below), s + 1);
    }
    var lost := FilesIn(versions, Under(below), s) - FilesIn(versions, Under(below), s + 1);
    if lost != {} {
      var h :| h in lost;
      var v :| v in versions && Covers(v, s) && h == Held(v.path, v.content);
      assert v.last == s by {
        assert Covers(v, s + 1) ==> h in Shown(versions, s + 1);
      }
    }
  }

  // ---- Leaving a backup out ----

  /** The next newer archive read. */
  ghost predicate NextRead(rows: seq<Row>, s: int, t: int) {
    s < t && IsRead(rows, t) && forall k :: s < k < t ==> !IsRead(rows, k)
  }

  /** In a folder, the next newer archive read holds every file of one left out. */
  ghost predicate LeftOutForNothing(rows: seq<Row>, versions: set<Version>, folder: Folder) {
    forall s, t :: IsRead(rows, s) && NextRead(rows, s, t) && s !in ListedFor(rows, versions, folder) ==>
      FilesIn(versions, folder, s) <= FilesIn(versions, folder, t)
  }

  /** A file last shown of an archive nobody has read is shown of the next read. */
  ghost predicate CarriedOn(rows: seq<Row>, versions: set<Version>) {
    forall v, s, t ::
      v in versions && v.content.kind != "dir" && Covers(v, s) && IsRead(rows, s) && NextRead(rows, s, t) ==>
        v.last == s || t <= v.last || Held(v.path, v.content) in Shown(versions, t)
  }

  /** Where nothing is claimed of an archive not read, files are so. */
  lemma SilentCarriesOn(rows: seq<Row>, versions: set<Version>)
    requires InRange(versions, |rows|) && Silent(rows, versions)
    ensures CarriedOn(rows, versions)
  {
    forall v | v in versions
      ensures IsRead(rows, v.last)
    {
      assert Held(v.path, v.content) in Shown(versions, v.last);
    }
  }

  lemma CarriesOn(rows: seq<Row>, versions: set<Version>, folder: Folder, s: int, t: int)
    requires InRange(versions, |rows|) && CarriedOn(rows, versions)
    requires IsRead(rows, s) && NextRead(rows, s, t) && s !in ListedFor(rows, versions, folder)
    ensures FilesIn(versions, folder, s) <= FilesIn(versions, folder, t)
  {
    forall h | h in FilesIn(versions, folder, s)
      ensures h in Shown(versions, t)
    {
      var v :| v in versions && Covers(v, s) && h == Held(v.path, v.content);
      assert v.last == s ==> s in ListedFor(rows, versions, folder);
      assert t <= v.last ==> Covers(v, t);
    }
  }

  /** Rows that encode a history leave no file out for something, in any folder,
      if and only if every file last shown of an archive nobody has read is shown
      of the next one read. */
  lemma LeavesOutIff(rows: seq<Row>, versions: set<Version>, history: seq<Listing>)
    requires InRange(versions, |rows|) && Encodes(versions, history)
    ensures (forall folder :: LeftOutForNothing(rows, versions, folder)) <==> CarriedOn(rows, versions)
  {
    if CarriedOn(rows, versions) {
      forall folder, s, t |
        IsRead(rows, s) && NextRead(rows, s, t) && s !in ListedFor(rows, versions, folder)
        ensures FilesIn(versions, folder, s) <= FilesIn(versions, folder, t)
      {
        CarriesOn(rows, versions, folder, s, t);
      }
    }
    if forall folder :: LeftOutForNothing(rows, versions, folder) {
      forall v, s, t | v in versions && v.content.kind != "dir" && Covers(v, s) && IsRead(rows, s) &&
                       NextRead(rows, s, t) && v.last != s
        ensures Held(v.path, v.content) in Shown(versions, t)
      {
        OnlyHere(rows, versions, history, v, s, t);
        assert LeftOutForNothing(rows, versions, Under({v.path}));
        assert Held(v.path, v.content) in FilesIn(versions, Under({v.path}), s);
      }
    }
  }

  /** In an encoding, a path has one row over an archive: it is not listed for a
      file that goes on. */
  lemma OnlyHere(rows: seq<Row>, versions: set<Version>, history: seq<Listing>, v: Version, s: int, t: int)
    requires Encodes(versions, history) && v in versions && Covers(v, s) && v.last != s
    requires IsRead(rows, s) && NextRead(rows, s, t)
    ensures s !in ListedFor(rows, versions, Under({v.path}))
  {
    forall w | w in versions && w.path == v.path && w.last == s
      ensures false
    {
      OneRun(history, v, w, s);
    }
  }

  /** What the window is given of the catalogue's archives: newest first. */
  function Overview(rows: seq<Row>): (archives: seq<Timeline.Archive>)
    ensures |archives| == |rows|
  {
    seq(|rows|, i requires 0 <= i < |rows| =>
      var row := rows[|rows| - 1 - i];
      Timeline.Archive(|rows| - i, row.ts, !row.pending))
  }

  lemma OverviewOrdered(rows: seq<Row>)
    requires forall i, j :: 0 <= i < j < |rows| ==> rows[i].ts < rows[j].ts
    ensures Timeline.Ordered(Overview(rows))
  {
  }

  /** Why the window may leave out what the catalogue does not list. */
  lemma NothingLeftOut(v: Window.View, rows: seq<Row>, versions: set<Version>, folder: Folder)
    requires LeftOutForNothing(rows, versions, folder)
    requires v.archives == Overview(rows) && v.listing.Some? &&
             v.listing.value.numbers == ListedFor(rows, versions, folder)
    ensures Window.LeftOutForNothing(v, s => FilesIn(versions, folder, s))
  {
    forall i | 0 <= i < |v.archives| && Window.LeftOut(v, i)
      ensures exists j ::
                0 <= j < i && Window.NextNewer(v.archives, j, i) &&
                FilesIn(versions, folder, v.archives[i].number) <= FilesIn(versions, folder, v.archives[j].number)
    {
      var s := v.archives[i].number;
      assert IsRead(rows, s);
      assert s != Newest(rows) by {
        assert Newest(rows) in ListedFor(rows, versions, folder);
      }
      var j := FindsNext(rows, i);
      assert NextRead(rows, s, v.archives[j].number);
    }
  }

  lemma FindsNext(rows: seq<Row>, i: nat) returns (j: nat)
    requires i < |rows| && |rows| - i < Newest(rows)
    ensures j < i && Window.NextNewer(Overview(rows), j, i) && NextRead(rows, |rows| - i, |rows| - j)
  {
    var archives := Overview(rows);
    j := i - 1;
    while !archives[j].catalogued
      invariant j < i && |rows| - j <= Newest(rows)
      invariant forall k :: j < k < i ==> !archives[k].catalogued
      decreases j
    {
      assert archives[|rows| - Newest(rows)].catalogued;
      j := j - 1;
    }
    forall k | |rows| - i < k < |rows| - j
      ensures !IsRead(rows, k)
    {
      assert !archives[|rows| - k].catalogued;
    }
  }

  /** Where the window lands on any backup that has been read holds every file
      that backup holds in the folder. */
  lemma LandingKeepsFiles(v: Window.View, rows: seq<Row>, versions: set<Version>, folder: Folder, s: int)
    requires InRange(versions, |rows|) && CarriedOn(rows, versions) && IsRead(rows, s)
    requires forall i, j :: 0 <= i < j < |rows| ==> rows[i].ts < rows[j].ts
    requires v.archives == Overview(rows) && v.entries == Timeline.EntriesFor(v.folder, v.archives, v.trash)
    requires v.ListingIsCurrent() ==> v.listing.value.numbers == ListedFor(rows, versions, folder)
    ensures FilesIn(versions, folder, s) <= Window.HeldAt(t => FilesIn(versions, folder, t), Window.Land(v, s))
  {
    OverviewOrdered(rows);
    if v.ListingIsCurrent() {
      forall s, t | IsRead(rows, s) && NextRead(rows, s, t) && s !in ListedFor(rows, versions, folder)
        ensures FilesIn(versions, folder, s) <= FilesIn(versions, folder, t)
      {
        CarriesOn(rows, versions, folder, s, t);
      }
      NothingLeftOut(v, rows, versions, folder);
    }
    assert v.archives[|rows| - s].number == s;
    Window.LandingLosesNothing(v, t => FilesIn(versions, folder, t), |rows| - s);
  }

  /** Three archives, of which the middle one is unread but shows the file of the
      first: it is not carried on. */
  lemma ClaimOfUnread(rows: seq<Row>, versions: set<Version>, content: Content)
    requires |rows| == 3 && !rows[0].pending && rows[1].pending && !rows[2].pending
    requires content.kind != "dir" && Encodes(versions, [map[1 := content], map[1 := content], map[]])
    ensures !CarriedOn(rows, versions) && 1 !in ListedFor(rows, versions, Under({1}))
    ensures FilesIn(versions, Under({1}), 1) == {Held(1, content)} && FilesIn(versions, Under({1}), 3) == {}
  {
    var history: seq<Listing> := [map[1 := content], map[1 := content], map[]];
    var row := Version(1, 1, 2, content);
    assert Has(history, 1, 1, content) && Has(history, 2, 1, content) && !Has(history, 3, 1, content);
    assert IsRun(history, row) && row in versions;
    forall s | 1 <= s <= 3
      ensures Shown(versions, s) == Pairs(history[s - 1])
    {
      EncodedShows(versions, history, s);
    }
    assert Held(1, content) in FilesIn(versions, Under({1}), 1);
    NewestOfThree(rows);
    OnlyHere(rows, versions, history, row, 1, 3);
    assert Covers(row, 1) && NextRead(rows, 1, 3);
  }

  /** And hidden: the first is left out, and the window lands on the last. */
  lemma ClaimOfUnreadHides(v: Window.View, rows: seq<Row>, versions: set<Version>, content: Content)
    requires |rows| == 3 && !rows[0].pending && rows[1].pending && !rows[2].pending
    requires content.kind != "dir" && Encodes(versions, [map[1 := content], map[1 := content], map[]])
    requires v.archives == Overview(rows) && v.entries == [] && !v.showAll && v.ListingIsCurrent()
    requires v.listing.value.numbers == ListedFor(rows, versions, Under({1}))
    ensures FilesIn(versions, Under({1}), 1) == {Held(1, content)}
    ensures Window.Land(v, 1) == 3 && FilesIn(versions, Under({1}), 3) == {}
  {
    ClaimOfUnread(rows, versions, content);
    NewestOfThree(rows);
    LandsOnLast(v, rows, ListedFor(rows, versions, Under({1})));
  }

  lemma NewestOfThree(rows: seq<Row>)
    requires |rows| == 3 && !rows[0].pending && rows[1].pending && !rows[2].pending
    ensures Newest(rows) == 3 && IsRead(rows, 1) && NextRead(rows, 1, 3)
  {
  }

  lemma LandsOnLast(v: Window.View, rows: seq<Row>, numbers: set<int>)
    requires |rows| == 3 && !rows[0].pending && rows[1].pending && !rows[2].pending
    requires v.archives == Overview(rows) && v.entries == [] && !v.showAll && v.ListingIsCurrent()
    requires v.listing.value.numbers == numbers && 1 !in numbers && 3 in numbers
    ensures Window.Land(v, 1) == 3
  {
    var a1, a2 := Timeline.Archive(1, rows[0].ts, true), Timeline.Archive(2, rows[1].ts, false);
    var a3 := Timeline.Archive(3, rows[2].ts, true);
    assert Overview(rows) == [a3, a2, a1];
    assert Window.NewerListed([a1], numbers, 1) == [];
    assert Window.NewerListed([a2, a1], numbers, 1) == [];
    assert Window.NewerListed([a3, a2, a1], numbers, 1) == [Window.Place(rows[2].ts, 3)];
    assert Window.Soonest([Window.Place(rows[2].ts, 3)]) == Some(Window.Place(rows[2].ts, 3));
  }
}
