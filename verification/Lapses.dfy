/** Runs of the catalogue, from the start, in which it comes to say what is not
    so. */
module Lapses {
  import opened Text
  import opened Index
  import opened IndexRemove
  import opened IndexSync
  import opened IndexOrder
  import opened IndexWriter
  import opened Channel
  import opened CatalogueRuns
  import Listings
  import SnapperLoop
  import Window
  import opened Sorting

  // ---- Runs, step by step ----

  ghost predicate Reaches(steps: seq<Step>, s: State) {
    Runs(START, steps) && After(START, steps) == s
  }

  lemma {:induction false} RunsOn(s: State, steps: seq<Step>, step: Step)
    requires Runs(s, steps) && Enabled(After(s, steps), step)
    ensures Runs(s, steps + [step]) && After(s, steps + [step]) == Next(After(s, steps), step)
    decreases |steps|
  {
    hide Enabled, Next;
    var more := steps + [step];
    if steps == [] {
      assert more == [step] && more[1..] == [];
    } else {
      RunsOn(Next(s, steps[0]), steps[1..], step);
      assert more[1..] == steps[1..] + [step] && more[0] == steps[0];
    }
  }

  lemma Goes(steps: seq<Step>, s: State, step: Step) returns (more: seq<Step>)
    requires Reaches(steps, s) && Enabled(s, step)
    ensures Reaches(more, Next(s, step))
  {
    hide Enabled, Next;
    RunsOn(START, steps, step);
    more := steps + [step];
  }

  function AllArrive(items: seq<Item>): (events: seq<Event>)
    ensures |events| == |items| && forall i :: 0 <= i < |items| ==> events[i] == Arrived(items[i])
  {
    seq(|items|, i requires 0 <= i < |items| => Arrived(items[i]))
  }

  /** An archive that waits is read in whole. */
  lemma ReadsInWhole(steps: seq<Step>, s: State, k: nat, after: set<Version>) returns (more: seq<Step>)
    requires Reaches(steps, s) && s.reading.Idle? && 1 <= k <= |s.rows| && s.rows[k - 1].pending
    requires s.rows[k - 1].name in s.written
    requires ReadTo(s.versions, |s.rows|, k, Gots(s.written[s.rows[k - 1].name].items), Full, after)
    ensures Reaches(more, s.(rows := s.rows[k - 1 := s.rows[k - 1].(pending := false)], versions := after))
  {
    hide ReadTo, Reaches, Sent, Gots;
    var items := s.written[s.rows[k - 1].name].items;
    var events := AllArrive(items);
    var r := Reading(k, events, None, 0);
    assert Good(events) == items && !Breaks(events);
    more := Goes(steps, s, Open(k, events, None));
    while r.got < |Sent(events, None)|
      invariant r.Reading? && r == Reading(k, events, None, r.got) && r.got <= |Sent(events, None)|
      invariant Reaches(more, s.(reading := r))
      decreases |Sent(events, None)| - r.got
    {
      more := Goes(more, s.(reading := r), Receive);
      r := r.(got := r.got + 1);
    }
    ReceivedIs(r);
    assert Received(r) == Gots(items);
    more := Goes(more, s.(reading := r), Close(after));
  }

  // ---- What a step may leave of rows that encode a history ----

  lemma EncodedReads(versions: set<Version>, history: seq<Listing>, k: nat,
                     items: seq<Item>) returns (after: set<Version>)
    requires Encodes(versions, history) && 1 <= k <= |history| && history[k - 1] == map[] && NothingTwice(items)
    ensures ReadTo(versions, |history|, k, Gots(items), Full, after)
    ensures Encodes(after, history[k - 1 := Contents(items)])
  {
    var told := history[k - 1 := Contents(items)];
    after := Encoding(told);
    EveryHistoryEncoded(told);
    EncodedInRange(after, told);
    ItemsAreContents(items);
    OutcomeIs(history, k, items);
    hide Encodes, Shown, InRange, Contents, Gots, Says, Pairs, Fits;
    forall i | 0 <= i < |history|
      ensures Told(after, |history|)[i] == ReadOver(Told(versions, |history|), k, Gots(items), Full)[i]
    {
      EncodedShows(after, told, i + 1);
      EncodedShows(versions, history, i + 1);
    }
    forall other | |other| == |history| && Encodes(versions, other)
      ensures other == history
    {
      OneHistory(versions, other, history);
    }
  }

  /** Nothing read in leaves the rows as they are. */
  lemma ReadsNothing(versions: set<Version>, n: nat, k: nat)
    requires InRange(versions, n) && 1 <= k <= n
    ensures ReadTo(versions, n, k, Gots([]), Full, versions)
  {
    assert Gots([]) == [];
    hide InRange, Encodes, Shown;
    forall i | 0 <= i < n
      ensures ReadOver(Told(versions, n), k, Gots([]), Full)[i] == Told(versions, n)[i]
    {
    }
    forall history: seq<Listing> | |history| == n && history[k - 1] == map[]
      ensures Outcome(history, k, Gots([]), Full) == history
    {
    }
  }

  lemma EncodedRemoves(versions: set<Version>, history: seq<Listing>, keep: seq<bool>) returns (left: set<Version>)
    requires Encodes(versions, history) && |keep| == |history|
    ensures RemovedTo(versions, keep, left) && Encodes(left, Surviving(history, keep))
  {
    hide Encodes, Shown, InRange, Rank, Encoding, Surviving;
    var kept := Surviving(history, keep);
    left := Encoding(kept);
    EveryHistoryEncoded(kept);
    EncodedInRange(left, kept);
    if forall i :: 0 <= i < |keep| ==> keep[i] {
      AllSurvive(history, keep);
      OneEncoding(left, versions, history);
    }
    ShowsSurvivors(versions, history, keep, left);
    forall other | |other| == |history| && Encodes(versions, other)
      ensures other == history
    {
      OneHistory(versions, other, history);
    }
  }

  lemma ShowsSurvivors(versions: set<Version>, history: seq<Listing>, keep: seq<bool>, left: set<Version>)
    requires Encodes(versions, history) && |keep| == |history| && Encodes(left, Surviving(history, keep))
    ensures Told(left, Rank(keep, |keep|)) == Surviving(Told(versions, |keep|), keep)
  {
    hide Encodes, Shown, Rank, Surviving;
    var kept, told := Surviving(history, keep), Told(versions, |keep|);
    forall i | 0 <= i < |kept|
      ensures Told(left, |kept|)[i] == Surviving(told, keep)[i]
    {
      EncodedShows(left, kept, i + 1);
      var a := Survivor(history, keep, i + 1);
      var b := Survivor(told, keep, i + 1);
      SameSurvivor(keep, a, b);
      EncodedShows(versions, history, a);
    }
  }

  // ---- Two backups that share a file, and three between them that lack it ----

  function OneFile(content: Content): seq<Item> {
    [Item(1, content)]
  }

  function Waiting(name: string, ts: int): Row {
    Row(name, ts, PRIMARY, true, None)
  }

  function Done(name: string, ts: int): Row {
    Row(name, ts, PRIMARY, false, None)
  }

  lemma HoldsOne(content: Content)
    ensures Contents(OneFile(content)) == map[1 := content] && NothingTwice(OneFile(content))
    ensures Contents([]) == map[] && NothingTwice([])
  {
    assert Gots(OneFile(content)) == [Got(1, content)];
    assert Listed([Got(1, content)][..0]) == map[];
    assert Gots([]) == [];
  }

  /** A backup is written, recorded at the end and read in. */
  lemma BackedUp(steps: seq<Step>, s: State, name: string, archive: Archive, history: seq<Listing>)
    returns (more: seq<Step>, after: set<Version>)
    requires Reaches(steps, s) && s.reading.Idle? && name !in s.written && NothingTwice(archive.items)
    requires Encodes(s.versions, history) && |history| == |s.rows|
    ensures Encodes(after, history + [Contents(archive.items)])
    ensures Reaches(more,
                    State(s.written[name := archive], s.repo + {name}, s.rows + [Done(name, archive.ts)], after, Idle))
  {
    hide Reaches, Encodes, ReadTo, Contents, Gots, NothingTwice;
    var next := s.(written := s.written[name := archive], repo := s.repo + {name});
    assert Enabled(s, Write(name, archive));
    more := Goes(steps, s, Write(name, archive));
    assert Enabled(next, Append(name));
    more := Goes(more, next, Append(name));
    next := next.(rows := s.rows + [Waiting(name, archive.ts)]);
    AppendEncodes(s.versions, history);
    var n := |next.rows|;
    after := EncodedReads(s.versions, history + [map[]], n, archive.items);
    more := ReadsInWhole(more, next, n, after);
    assert next.rows[n - 1 := next.rows[n - 1].(pending := false)] == s.rows + [Done(name, archive.ts)];
    assert (history + [map[]])[n - 1 := Contents(archive.items)] == history + [Contents(archive.items)];
  }

  lemma Written(steps: seq<Step>, s: State, name: string, ts: int) returns (more: seq<Step>)
    requires Reaches(steps, s) && name !in s.written
    ensures Reaches(more, s.(written := s.written[name := Archive(ts, [])], repo := s.repo + {name}))
  {
    hide Reaches;
    more := Goes(steps, s, Write(name, Archive(ts, [])));
  }

  function Entries(): seq<Meta> {
    [Meta("A", 1), Meta("B", 2), Meta("C", 3), Meta("D", 4), Meta("E", 5)]
  }

  function AllFive(content: Content): map<string, Archive> {
    map["A" := Archive(1, OneFile(content)), "E" := Archive(5, OneFile(content)),
        "B" := Archive(2, []), "C" := Archive(3, []), "D" := Archive(4, [])]
  }

  function TwoAt(content: Content, versions: set<Version>): State {
    State(AllFive(content), {"A", "B", "C", "D", "E"}, [Done("A", 1), Done("E", 5)], versions, Idle)
  }

  lemma OneBackup(content: Content) returns (steps: seq<Step>, versions: set<Version>)
    ensures Encodes(versions, [map[1 := content]])
    ensures Reaches(steps, State(map["A" := Archive(1, OneFile(content))], {"A"}, [Done("A", 1)], versions, Idle))
  {
    hide Encodes, Reaches, Contents, NothingTwice, Done, OneFile;
    HoldsOne(content);
    NothingEncodes();
    StartReached();
    var archive := Archive(1, OneFile(content));
    steps, versions := BackedUp([], START, "A", archive, []);
    assert [] + [Contents(archive.items)] == [map[1 := content]] && [] + [Done("A", 1)] == [Done("A", 1)];
    assert map[]["A" := archive] == map["A" := archive] && {} + {"A"} == {"A"};
  }

  lemma TwoBackups(content: Content) returns (steps: seq<Step>, versions: set<Version>)
    ensures Encodes(versions, [map[1 := content], map[1 := content]])
    ensures Reaches(steps, TwoAt(content, versions))
  {
    hide Encodes, Reaches, Contents, NothingTwice, Done, OneFile;
    HoldsOne(content);
    steps, versions := OneBackup(content);
    var s := State(map["A" := Archive(1, OneFile(content))], {"A"}, [Done("A", 1)], versions, Idle);
    var later := Archive(5, OneFile(content));
    steps, versions := BackedUp(steps, s, "E", later, [map[1 := content]]);
    s := State(s.written["E" := later], s.repo + {"E"}, s.rows + [Done("E", 5)], versions, Idle);
    assert s.rows == [Done("A", 1), Done("E", 5)];
    assert [map[1 := content]] + [map[1 := content]] == [map[1 := content], map[1 := content]];
    steps := Written(steps, s, "B", 2);
    s := s.(written := s.written["B" := Archive(2, [])], repo := s.repo + {"B"});
    steps := Written(steps, s, "C", 3);
    s := s.(written := s.written["C" := Archive(3, [])], repo := s.repo + {"C"});
    steps := Written(steps, s, "D", 4);
    s := s.(written := s.written["D" := Archive(4, [])], repo := s.repo + {"D"});
    assert s.written == AllFive(content) && s.repo == {"A", "B", "C", "D", "E"};
  }

  lemma StartReached()
    ensures Reaches([], START)
  {
  }

  lemma OrderOfFive()
    ensures Order([Done("A", 1), Done("E", 5)], [Meta("B", 2), Meta("C", 3), Meta("D", 4)]) ==
            [Existing(0, Done("A", 1)), Newcomer(Meta("B", 2)), Newcomer(Meta("C", 3)), Newcomer(Meta("D", 4)),
             Existing(1, Done("E", 5))]
  {
    var a, e := Existing(0, Done("A", 1)), Existing(1, Done("E", 5));
    var b, c, d := Newcomer(Meta("B", 2)), Newcomer(Meta("C", 3)), Newcomer(Meta("D", 4));
    assert Slots([Done("A", 1), Done("E", 5)]) + Newcomers([Meta("B", 2), Meta("C", 3), Meta("D", 4)]) ==
           [a, e, b, c, d];
    assert Sort(Precedes, [d]) == [d];
    assert Sort(Precedes, [c, d]) == [c, d];
    assert Sort(Precedes, [b, c, d]) == [b, c, d];
    assert Insert(Precedes, e, [d]) == [d, e];
    assert Insert(Precedes, e, [c, d]) == [c, d, e];
    assert Insert(Precedes, e, [b, c, d]) == [b, c, d, e];
    assert [e, b, c, d][1..] == [b, c, d] && [a, e, b, c, d][1..] == [e, b, c, d];
    assert Sort(Precedes, [e, b, c, d]) == [b, c, d, e];
    assert Sort(Precedes, [a, e, b, c, d]) == Insert(Precedes, a, [b, c, d, e]);
  }

  function FiveRows(): seq<Row> {
    [Done("A", 1), Waiting("B", 2), Waiting("C", 3), Waiting("D", 4), Done("E", 5)]
  }

  function FiveAt(content: Content, versions: set<Version>): State {
    State(AllFive(content), {"A", "B", "C", "D", "E"}, FiveRows(), versions, Idle)
  }

  /** What the rows say once the three are slotted in: the middle one seems to hold
      the file as well. */
  function Claimed(content: Content): (history: seq<Listing>)
    ensures |history| == 5
  {
    [map[1 := content], map[], map[1 := content], map[], map[1 := content]]
  }

  lemma SlotsFive(content: Content)
    ensures var known := [true, false, false, false, true];
            && Rank(known, 5) == 2
            && Partly([map[1 := content], map[1 := content]], known, 5) == Claimed(content)
  {
    var known, shared := [true, false, false, false, true], map[1 := content];
    assert Rank(known, 1) == 1 && Rank(known, 2) == 1 && Rank(known, 3) == 1 && Rank(known, 4) == 1 &&
           Rank(known, 5) == 2;
    assert NewBefore(known, 2) == 0 && NewBefore(known, 3) == 1 && NewBefore(known, 4) == 2;
    assert Common(shared, shared) == shared;
    assert Across([shared, shared], 1) == shared;
    forall i | 0 <= i < 5
      ensures Partly([shared, shared], known, 5)[i] == Claimed(content)[i]
    {
    }
  }

  lemma ListsFive(content: Content, versions: set<Version>)
    ensures ListsRepo(TwoAt(content, versions), Entries())
  {
    var entries := Entries();
    assert entries[0].name == "A" && entries[1].name == "B" && entries[2].name == "C" && entries[3].name == "D" &&
           entries[4].name == "E";
  }

  lemma UnknownOfFive()
    ensures Missing([Done("A", 1), Done("E", 5)], PRIMARY, Entries()) == [Meta("B", 2), Meta("C", 3), Meta("D", 4)]
  {
    hide Recorded, Missing, Done;
    var rows := [Done("A", 1), Done("E", 5)];
    var a, b, c, d, e := Meta("A", 1), Meta("B", 2), Meta("C", 3), Meta("D", 4), Meta("E", 5);
    RecordedTwo();
    MissingNone(rows);
    MissingOne(rows, e, []);
    MissingOne(rows, d, [e]);
    MissingOne(rows, c, [d, e]);
    MissingOne(rows, b, [c, d, e]);
    MissingOne(rows, a, [b, c, d, e]);
    assert [e] + [] == [e] && [d] + [e] == [d, e] && [c] + [d, e] == [c, d, e];
    assert [b] + [c, d, e] == [b, c, d, e] && [a] + [b, c, d, e] == Entries();
  }

  lemma WantedTwo()
    ensures Wanted([Done("A", 1), Done("E", 5)], PRIMARY, Entries()) == [true, true]
  {
    hide Entered;
    EnteredFive();
  }

  lemma MissingNone(rows: seq<Row>)
    ensures Missing(rows, PRIMARY, []) == []
  {
  }

  lemma MissingOne(rows: seq<Row>, meta: Meta, more: seq<Meta>)
    ensures Missing(rows, PRIMARY, [meta] + more) ==
            (if Recorded(rows, PRIMARY, meta.name) then [] else [meta]) + Missing(rows, PRIMARY, more)
  {
    assert ([meta] + more)[1..] == more;
  }

  lemma RecordedTwo()
    ensures var rows := [Done("A", 1), Done("E", 5)];
            && Recorded(rows, PRIMARY, "A") && Recorded(rows, PRIMARY, "E")
            && !Recorded(rows, PRIMARY, "B") && !Recorded(rows, PRIMARY, "C") && !Recorded(rows, PRIMARY, "D")
  {
    var rows := [Done("A", 1), Done("E", 5)];
    assert rows[0].name == "A" && rows[1].name == "E";
  }

  lemma EnteredFive()
    ensures Entered(Entries(), "A") && Entered(Entries(), "E")
  {
    assert Entries()[0].name == "A" && Entries()[4].name == "E";
  }

  lemma SlotsRows(content: Content, left: set<Version>)
    requires Encodes(left, [map[1 := content], map[1 := content]])
    ensures var rows, missing := [Done("A", 1), Done("E", 5)], [Meta("B", 2), Meta("C", 3), Meta("D", 4)];
            && InRange(left, 2) && Stack(Order(rows, missing), PRIMARY) == FiveRows()
            && Encodes(Slotted(rows, left, missing), Claimed(content))
  {
    hide Encodes, Order, Slotted, Partly, Rank, InRange;
    var rows, missing := [Done("A", 1), Done("E", 5)], [Meta("B", 2), Meta("C", 3), Meta("D", 4)];
    OrderOfFive();
    SlotsFive(content);
    InTimeOfTwo();
    SlottedEncodes(rows, left, missing, [map[1 := content], map[1 := content]]);
    assert Known(Order(rows, missing)) == [true, false, false, false, true];
    assert Stack(Order(rows, missing), PRIMARY) == FiveRows();
  }

  lemma SyncsFive(content: Content, versions: set<Version>) returns (left: set<Version>, after: set<Version>)
    requires Encodes(versions, [map[1 := content], map[1 := content]])
    ensures CanSync(TwoAt(content, versions), Entries(), left)
    ensures Synced(TwoAt(content, versions), Entries(), left) == FiveAt(content, after)
    ensures Encodes(after, Claimed(content))
  {
    hide Encodes, Order, Slotted, Missing, Wanted, ListsRepo, RemovedTo, AllFive, Surviving, InRange;
    hide Stack, Done, FiveRows;
    var history: seq<Listing> := [map[1 := content], map[1 := content]];
    var rows, missing := [Done("A", 1), Done("E", 5)], [Meta("B", 2), Meta("C", 3), Meta("D", 4)];
    UnknownOfFive();
    WantedTwo();
    ListsFive(content, versions);
    left := EncodedRemoves(versions, history, [true, true]);
    AllSurvive(history, [true, true]);
    AllSurvive(rows, [true, true]);
    SlotsRows(content, left);
    after := Slotted(rows, left, missing);
  }

  /** Recorded by one sync, they are slotted in next to each other. */
  lemma FiveBackups(content: Content) returns (steps: seq<Step>, versions: set<Version>)
    ensures Encodes(versions, Claimed(content))
    ensures Reaches(steps, FiveAt(content, versions))
  {
    hide Encodes, Reaches, CanSync, Synced, AllFive;
    steps, versions := TwoBackups(content);
    var left, after := SyncsFive(content, versions);
    steps := Goes(steps, TwoAt(content, versions), Sync(Entries(), left));
    versions := after;
  }

  lemma InTimeOfTwo()
    ensures Chronological(Slots([Done("A", 1), Done("E", 5)]))
  {
  }

  /** Read in, the middle one shows a file that it does not hold. */
  lemma LiesAfterSync(content: Content) returns (steps: seq<Step>)
    ensures Runs(START, steps) && Inv(After(START, steps))
    ensures var end := After(START, steps);
            && |end.rows| == 5 && end.rows[2] == Done("C", 3) && end.written["C"].items == []
            && Shown(end.versions, 3) == {Held(1, content)} && !TellsTruth(end)
  {
    hide Encodes, ReadTo, Runs, After;
    var versions;
    steps, versions := FiveBackups(content);
    var s := FiveAt(content, versions);
    EncodedInRange(versions, Claimed(content));
    EncodedShows(versions, Claimed(content), 3);
    ReadsNothing(versions, 5, 3);
    steps := ReadsInWhole(steps, s, 3, versions);
    var end := s.(rows := s.rows[2 := Done("C", 3)]);
    assert end == After(START, steps);
    HoldsOne(content);
    assert Pairs(map[1 := content]) == {Held(1, content)} by {
      OnePair(1, content);
    }
    FiveInv(content, end.rows, versions);
    assert TrulyIn(end, 2) == {} by {
      OnePair(1, content);
    }
  }

  lemma FiveInv(content: Content, rows: seq<Row>, versions: set<Version>)
    requires InRange(versions, |rows|)
    requires forall i :: 0 <= i < |rows| ==> rows[i].repo == PRIMARY && rows[i].name in AllFive(content)
    ensures Inv(State(AllFive(content), {"A", "B", "C", "D", "E"}, rows, versions, Idle))
  {
    HoldsOne(content);
  }

  // ---- Two of them pruned ----

  const KEPT := [true, false, true, true, false]

  function ThreeLeft(): seq<Meta> {
    [Meta("A", 1), Meta("C", 3), Meta("D", 4)]
  }

  function PrunedAt(content: Content, versions: set<Version>): State {
    FiveAt(content, versions).(repo := {"A", "C", "D"})
  }

  lemma ListsThree(content: Content, versions: set<Version>)
    ensures ListsRepo(PrunedAt(content, versions), ThreeLeft())
  {
    var entries := ThreeLeft();
    assert entries[0].name == "A" && entries[1].name == "C" && entries[2].name == "D";
  }

  lemma KeepsThree<T>(a: T, b: T, c: T, d: T, e: T)
    ensures Rank(KEPT, 5) == 3 && Surviving([a, b, c, d, e], KEPT) == [a, c, d]
  {
    assert KEPT[..4] == [true, false, true, true] && [a, b, c, d, e][..4] == [a, b, c, d];
    assert KEPT[..4][..3] == [true, false, true] && [a, b, c, d][..3] == [a, b, c];
    assert KEPT[..3][..2] == [true, false] && [a, b, c][..2] == [a, b];
    assert KEPT[..2][..1] == [true] && [a, b][..1] == [a];
    assert Surviving([a], [true]) == [a];
    assert Surviving([a, b], [true, false]) == [a];
    assert Surviving([a, b, c], [true, false, true]) == [a, c];
    assert Surviving([a, b, c, d], [true, false, true, true]) == [a, c, d];
  }

  lemma WantedThree()
    ensures Wanted(FiveRows(), PRIMARY, ThreeLeft()) == KEPT
  {
    var entries := ThreeLeft();
    assert entries[0].name == "A" && entries[1].name == "C" && entries[2].name == "D";
    assert Entered(entries, "A") && Entered(entries, "C") && Entered(entries, "D");
    assert !Entered(entries, "B") && !Entered(entries, "E");
  }

  lemma NoneUnknown()
    ensures Missing([Done("A", 1), Waiting("C", 3), Waiting("D", 4)], PRIMARY, ThreeLeft()) == []
  {
    var rows := [Done("A", 1), Waiting("C", 3), Waiting("D", 4)];
    assert rows[0].name == "A" && rows[1].name == "C" && rows[2].name == "D";
    assert Recorded(rows, PRIMARY, "A") && Recorded(rows, PRIMARY, "C") && Recorded(rows, PRIMARY, "D");
    hide Recorded, Missing;
    var a, c, d := Meta("A", 1), Meta("C", 3), Meta("D", 4);
    MissingNone(rows);
    assert [d] + [] == [d] && [c] + [d] == [c, d] && [a] + [c, d] == ThreeLeft();
    MissingOne(rows, d, []);
    MissingOne(rows, c, [d]);
    MissingOne(rows, a, [c, d]);
  }

  lemma SyncsThree(content: Content, versions: set<Version>) returns (left: set<Version>)
    requires Encodes(versions, Claimed(content))
    ensures CanSync(PrunedAt(content, versions), ThreeLeft(), left)
    ensures Synced(PrunedAt(content, versions), ThreeLeft(), left) ==
            PrunedAt(content, left).(rows := [Done("A", 1), Waiting("C", 3), Waiting("D", 4)])
    ensures Encodes(left, [map[1 := content], map[1 := content], map[]])
  {
    hide Encodes, Missing, Wanted, ListsRepo, RemovedTo, AllFive, Surviving;
    var shared: Listing := map[1 := content];
    left := EncodedRemoves(versions, Claimed(content), KEPT);
    KeepsThree(shared, map[], shared, map[], shared);
    KeepsThree(Done("A", 1), Waiting("B", 2), Waiting("C", 3), Waiting("D", 4), Done("E", 5));
    WantedThree();
    NoneUnknown();
    ListsThree(content, versions);
  }

  /** The backups before and after pruned, the rows that are left join over one
      nobody has read; and the file, held by the first alone, is not to be found:
      the first is left out, and where the window lands does not have it. */
  lemma HiddenAfterPrune(content: Content) returns (steps: seq<Step>)
    requires content.kind != "dir"
    ensures Runs(START, steps)
    ensures var end := After(START, steps);
            && end.rows == [Done("A", 1), Waiting("C", 3), Done("D", 4)]
            && !Listings.CarriedOn(end.rows, end.versions)
            && Listings.FilesIn(end.versions, Listings.Under({1}), 1) == {Held(1, content)}
            && (forall v: Window.View :: Shows(v, end) ==>
                  Window.Land(v, 1) == 3 && Listings.FilesIn(end.versions, Listings.Under({1}), 3) == {})
  {
    hide Encodes, ReadTo, Runs, After, CanSync, Synced, AllFive;
    var versions;
    steps, versions := FiveBackups(content);
    steps := Prunes(steps, content, versions);
    var left := SyncsThree(content, versions);
    steps := Goes(steps, PrunedAt(content, versions), Sync(ThreeLeft(), left));
    var s := PrunedAt(content, left).(rows := [Done("A", 1), Waiting("C", 3), Waiting("D", 4)]);
    EncodedInRange(left, [map[1 := content], map[1 := content], map[]]);
    ReadsNothing(left, 3, 3);
    NothingInD(content);
    steps := ReadsInWhole(steps, s, 3, left);
    var end := s.(rows := [Done("A", 1), Waiting("C", 3), Done("D", 4)]);
    assert end.rows == s.rows[2 := s.rows[2].(pending := false)] && end == After(START, steps);
    ClaimHides(end, content);
  }

  lemma NothingInD(content: Content)
    ensures "D" in AllFive(content) && AllFive(content)["D"].items == []
  {
  }

  lemma Prunes(steps: seq<Step>, content: Content, versions: set<Version>) returns (more: seq<Step>)
    requires Reaches(steps, FiveAt(content, versions))
    ensures Reaches(more, PrunedAt(content, versions))
  {
    hide Reaches;
    more := Goes(steps, FiveAt(content, versions), Prune({"B", "E"}));
    assert FiveAt(content, versions).repo - {"B", "E"} == {"A", "C", "D"};
  }

  /** A window that shows the catalogue as it is. */
  ghost predicate Shows(v: Window.View, s: State) {
    && v.archives == Listings.Overview(s.rows) && v.entries == [] && !v.showAll && v.ListingIsCurrent()
    && v.listing.value.numbers == Listings.ListedFor(s.rows, s.versions, Listings.Under({1}))
  }

  lemma ClaimHides(end: State, content: Content)
    requires content.kind != "dir" && Encodes(end.versions, [map[1 := content], map[1 := content], map[]])
    requires end.rows == [Done("A", 1), Waiting("C", 3), Done("D", 4)]
    ensures !Listings.CarriedOn(end.rows, end.versions)
    ensures Listings.FilesIn(end.versions, Listings.Under({1}), 1) == {Held(1, content)}
    ensures forall v: Window.View :: Shows(v, end) ==>
              Window.Land(v, 1) == 3 && Listings.FilesIn(end.versions, Listings.Under({1}), 3) == {}
  {
    hide Encodes;
    Listings.ClaimOfUnread(end.rows, end.versions, content);
    forall v: Window.View | Shows(v, end)
      ensures Window.Land(v, 1) == 3 && Listings.FilesIn(end.versions, Listings.Under({1}), 3) == {}
    {
      Listings.ClaimOfUnreadHides(v, end.rows, end.versions, content);
    }
  }

  // ---- Two snapshots between two backups ----

  function Snapshot(name: string, ts: int): Row {
    Row(name, ts, SNAPPER, true, None)
  }

  function Backups(): seq<Row> {
    [Done("A", 1), Done("D", 4)]
  }

  function Backlog(): seq<Row> {
    [Done("A", 1), Snapshot("S", 2), Snapshot("T", 3), Done("D", 4)]
  }

  /** Snapshots of two configurations: the newer covers the folder the file is in,
      and holds it; the other does not cover it. */
  function TwoSnapshots(content: Content): map<string, SnapperLoop.Result> {
    map["T" := SnapperLoop.Reads(OneFile(content), {1}), "S" := SnapperLoop.Reads([], {})]
  }

  lemma OrderOfFour()
    ensures Order(Backups(), [Meta("S", 2), Meta("T", 3)]) ==
            [Existing(0, Done("A", 1)), Newcomer(Meta("S", 2)), Newcomer(Meta("T", 3)), Existing(1, Done("D", 4))]
  {
    var a, d := Existing(0, Done("A", 1)), Existing(1, Done("D", 4));
    var b, c := Newcomer(Meta("S", 2)), Newcomer(Meta("T", 3));
    assert Slots(Backups()) + Newcomers([Meta("S", 2), Meta("T", 3)]) == [a, d, b, c];
    assert Sort(Precedes, [c]) == [c];
    assert Sort(Precedes, [b, c]) == [b, c];
    assert Insert(Precedes, d, [c]) == [c, d];
    assert Insert(Precedes, d, [b, c]) == [b, c, d];
    assert [d, b, c][1..] == [b, c] && [a, d, b, c][1..] == [d, b, c];
    assert Sort(Precedes, [d, b, c]) == [b, c, d];
    assert Sort(Precedes, [a, d, b, c]) == Insert(Precedes, a, [b, c, d]);
  }

  /** Slotting them in leaves the newer one seeming to hold the file. */
  lemma SlotsFour(content: Content)
    ensures var missing := [Meta("S", 2), Meta("T", 3)];
            && Stack(Order(Backups(), missing), SNAPPER) == Backlog()
            && Slotted(Backups(), {Version(1, 1, 2, content)}, missing) ==
               {Version(1, 1, 1, content), Version(1, 3, 4, content)}
  {
    var missing, versions := [Meta("S", 2), Meta("T", 3)], {Version(1, 1, 2, content)};
    OrderOfFour();
    var order := Order(Backups(), missing);
    var known := [true, false, false, true];
    assert Known(order) == known && Stack(order, SNAPPER) == Backlog();
    assert order[1..][0].Newcomer? && order[1..][1..][0].Newcomer? && order[1..][1..][1..][0] == order[3];
    assert Position(order[1..][1..][1..], 1) == 0 && Position(order[1..][1..], 1) == 1;
    assert Position(order[1..], 1) == 2;
    assert Position(order, 0) == 0 && Position(order, 1) == 3;
    hide Order, Position;
    var spread := Version(1, 1, 4, content);
    assert MovedBy(order, versions) == {spread};
    SplitsOne(content);
    assert SplitTo({spread}, known, 1) == {spread};
    assert SplitTo({spread}, known, 2) == SplitAround({spread}, 2);
    assert SplitTo({spread}, known, 3) == SplitAround(SplitAround({spread}, 2), 3);
  }

  lemma SplitsOne(content: Content)
    ensures var halves := {Version(1, 1, 1, content), Version(1, 3, 4, content)};
            SplitAround({Version(1, 1, 4, content)}, 2) == halves && SplitAround(halves, 3) == halves
  {
  }

  function OneRead(): seq<Row> {
    Backlog()[2 := Backlog()[2].(pending := false)]
  }

  function BothRead(): seq<Row> {
    OneRead()[1 := OneRead()[1].(pending := false)]
  }

  /** Read newest first, the second snapshot can take the file from the backup after
      them both: which of the two rows it is joined to is up to the store. */
  lemma BackupLoses(content: Content) returns (mid: set<Version>, after: set<Version>)
    ensures var slotted := Slotted(Backups(), {Version(1, 1, 2, content)}, [Meta("S", 2), Meta("T", 3)]);
            var results := TwoSnapshots(content);
            && SnapperLoop.Ran(results, Backlog(), slotted, {}, 3, OneRead(), mid, {})
            && SnapperLoop.Ran(results, OneRead(), mid, {}, 2, BothRead(), after, {})
            && Shown(slotted, 4) == {Held(1, content)} && Shown(after, 4) == {}
  {
    hide Slotted, Carry, SnapperLoop.Ran;
    SlotsFour(content);
    var before, short, long := Version(1, 1, 1, content), Version(1, 3, 3, content), Version(1, 3, 4, content);
    mid, after := {before, short, long}, {Version(1, 1, 3, content)};
    CarryLoses(1, content);
    RanFirst(content);
    RanSecond(content);
    assert long in {before, long} && Covers(long, 4);
    assert Shown({before, long}, 4) == {Held(1, content)};
  }

  lemma RanFirst(content: Content)
    ensures var before, short, long := Version(1, 1, 1, content), Version(1, 3, 3, content), Version(1, 3, 4, content);
            SnapperLoop.Ran(TwoSnapshots(content), Backlog(), {before, long}, {}, 3, OneRead(), {before, short, long},
                            {})
  {
    hide ReadTo;
    NewestOfBacklog();
    ReadsShort(content);
  }

  lemma RanSecond(content: Content)
    ensures var before, short, long := Version(1, 1, 1, content), Version(1, 3, 3, content), Version(1, 3, 4, content);
            SnapperLoop.Ran(TwoSnapshots(content), OneRead(), {before, short, long}, {}, 2, BothRead(),
                            {Version(1, 1, 3, content)}, {})
  {
    hide ReadTo;
    NewestOfBacklog();
    ReadsOther(content);
  }

  lemma NewestOfBacklog()
    ensures SnapperLoop.NewestDue(Backlog()) == 3 && SnapperLoop.NewestDue(OneRead()) == 2
  {
    assert SnapperLoop.Due(Backlog()[2]) && !SnapperLoop.Due(Backlog()[3]);
    assert SnapperLoop.Due(OneRead()[1]) && !SnapperLoop.Due(OneRead()[2]) && !SnapperLoop.Due(OneRead()[3]);
  }

  lemma ReadsShort(content: Content)
    ensures var before, short, long := Version(1, 1, 1, content), Version(1, 3, 3, content), Version(1, 3, 4, content);
            ReadTo({before, long}, 4, 3, Gots(OneFile(content)), Scoped({1}), {before, short, long})
  {
    var before, short, long := Version(1, 1, 1, content), Version(1, 3, 3, content), Version(1, 3, 4, content);
    var versions, mid, items := {before, long}, {before, short, long}, Gots(OneFile(content));
    assert items == [Got(1, content)];
    assert Says(items) == {Held(1, content)} && Mentioned(items) == {1} by {
      assert items[0] == Got(1, content);
    }
    assert ItemsTo(versions, 4, 3, items, mid) by {
      forall t
        ensures Shown(mid, t) == Shown(versions, t) + if t == 3 then Says(items) else {}
      {
        assert short in mid && long in mid && before in mid && long in versions && before in versions;
      }
    }
    assert Picks(mid, 3, {1}, map[]) && Carry(mid, 3, {1}, map[]) == mid;
    assert CarriedTo(mid, 3, {1}, mid);
    forall history: seq<Listing> | |history| == 4 && Encodes(versions, history)
      ensures history[2] != map[]
    {
      assert IsRun(history, long) && Has(history, 3, 1, content);
    }
  }

  lemma ReadsOther(content: Content)
    ensures var before, short, long := Version(1, 1, 1, content), Version(1, 3, 3, content), Version(1, 3, 4, content);
            ReadTo({before, short, long}, 4, 2, Gots([]), Scoped({}), {Version(1, 1, 3, content)})
  {
    var before, short, long := Version(1, 1, 1, content), Version(1, 3, 3, content), Version(1, 3, 4, content);
    var mid, pick := {before, short, long}, map[before := short];
    assert Gots([]) == [];
    CarryLoses(1, content);
    assert ItemsTo(mid, 4, 2, Gots([]), mid);
    assert CarriedTo(mid, 2, {}, Carry(mid, 2, {}, pick));
    forall history: seq<Listing> | |history| == 4
      ensures !Encodes(mid, history)
    {
      if Encodes(mid, history) {
        assert IsRun(history, short) && IsRun(history, long);
        OneRun(history, short, long, 3);
      }
    }
  }
}
