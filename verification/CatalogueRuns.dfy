/** The repository and the catalogue as two states, and every run of what
    changes them (crates/backtrackd/src/pipeline.rs): backups written, prunes,
    syncs, archives read in, and the daemon stopping between any two steps. The
    catalogue is the writer's own rows, so a sync may leave something said of an
    archive nobody has read, and reading it in adds to that. */
module CatalogueRuns {
  import opened Text
  import opened Index
  import opened IndexRemove
  import opened IndexSync
  import opened IndexOrder
  import opened IndexWriter
  import opened Channel
  import opened Cataloguing

  /** What is truly in an archive, and when it was made. */
  datatype Archive = Archive(ts: int, items: seq<Item>)

  /** A listing being read in: the writer holds the catalogue, and has been given
      the first `got` messages. */
  datatype Reading = Idle | Reading(s: nat, events: seq<Event>, cancel: Option<nat>, got: nat)

  /** `written` is every archive there ever was. */
  datatype State = State(written: map<string, Archive>, repo: set<string>, rows: seq<Row>, versions: set<Version>,
                         reading: Reading)

  /** A sync is given the repository's archives in any order, and `left` is what
      removing those it lists no more leaves; `after` is what a commit leaves. */
  datatype Step =
    | Write(name: string, archive: Archive)
    | Prune(gone: set<string>)
    | Sync(entries: seq<Meta>, left: set<Version>)
    | Append(name: string)
    | Open(s: nat, events: seq<Event>, cancel: Option<nat>)
    | Receive
    | Close(after: set<Version>)
    | Unheard(after: set<Version>)
    | Crash

  predicate NothingTwice(items: seq<Item>) {
    forall i, j :: 0 <= i < j < |items| ==> items[i].path != items[j].path
  }

  function Contents(items: seq<Item>): Listing {
    Listed(Gots(items))
  }

  /** The engine lists what is in an archive, in order, as far as it gets. */
  ghost predicate Lists(events: seq<Event>, items: seq<Item>) {
    Good(events) <= items && (!Breaks(events) ==> Good(events) == items)
  }

  /** The repository's archives, each once. */
  ghost predicate ListsRepo(s: State, entries: seq<Meta>) {
    && (forall i :: 0 <= i < |entries| ==>
          entries[i].name in s.repo && entries[i].name in s.written && entries[i].ts == s.written[entries[i].name].ts)
    && (forall name :: name in s.repo ==> Entered(entries, name))
    && (forall i, j :: 0 <= i < j < |entries| ==> entries[i].name != entries[j].name)
  }

  function Stayed(rows: seq<Row>, entries: seq<Meta>): (kept: seq<Row>)
    ensures |kept| == Rank(Wanted(rows, PRIMARY, entries), |rows|)
  {
    Surviving(rows, Wanted(rows, PRIMARY, entries))
  }

  function Unknown(rows: seq<Row>, entries: seq<Meta>): seq<Meta> {
    Missing(Stayed(rows, entries), PRIMARY, entries)
  }

  ghost predicate CanSync(s: State, entries: seq<Meta>, left: set<Version>) {
    s.reading.Idle? && ListsRepo(s, entries) && RemovedTo(s.versions, Wanted(s.rows, PRIMARY, entries), left)
  }

  /** What the messages the writer has been given come to. */
  function Received(r: Reading): seq<Read>
    requires r.Reading? && r.got <= |Sent(r.events, r.cancel)|
  {
    Flatten(Sent(r.events, r.cancel)[..r.got])
  }

  /** What the writer does once the channel closes: commit what it was given, or
      roll back if it was told that there should have been more. */
  ghost predicate CommitsTo(s: State, after: set<Version>) {
    && s.reading.Reading? && s.reading.got <= |Sent(s.reading.events, s.reading.cancel)|
    && 1 <= s.reading.s <= |s.rows|
    && if Whole(Received(s.reading))
       then ReadTo(s.versions, |s.rows|, s.reading.s, Received(s.reading), Full, after)
       else after == s.versions
  }

  ghost predicate Enabled(s: State, step: Step) {
    match step
    case Write(name, archive) => name !in s.written && NothingTwice(archive.items)
    case Prune(gone) => true
    case Sync(entries, left) => CanSync(s, entries, left)
    case Append(name) => s.reading.Idle? && name in s.repo && name in s.written
    case Open(k, events, cancel) =>
      && s.reading.Idle? && 1 <= k <= |s.rows| && s.rows[k - 1].pending
      && s.rows[k - 1].name in s.written && Lists(events, s.written[s.rows[k - 1].name].items)
    case Receive => s.reading.Reading? && s.reading.got < |Sent(s.reading.events, s.reading.cancel)|
    case Close(after) => CommitsTo(s, after) && s.reading.got == |Sent(s.reading.events, s.reading.cancel)|
    case Unheard(after) => CommitsTo(s, after) && s.reading.got < |Sent(s.reading.events, s.reading.cancel)|
    case Crash => true
  }

  ghost function Next(s: State, step: Step): State
    requires Enabled(s, step)
  {
    match step
    case Write(name, archive) => s.(written := s.written[name := archive], repo := s.repo + {name})
    case Prune(gone) => s.(repo := s.repo - gone)
    case Sync(entries, left) => Synced(s, entries, left)
    case Append(name) => s.(rows := s.rows + [Row(name, s.written[name].ts, PRIMARY, true, None)])
    case Open(k, events, cancel) => s.(reading := Reading(k, events, cancel, 0))
    case Receive => s.(reading := s.reading.(got := s.reading.got + 1))
    case Close(after) => Closed(s, after)
    case Unheard(after) => Closed(s, after)
    case Crash => s.(reading := Idle)
  }

  ghost function Synced(s: State, entries: seq<Meta>, left: set<Version>): State
    requires CanSync(s, entries, left)
  {
    var kept, missing := Stayed(s.rows, entries), Unknown(s.rows, entries);
    if missing == [] then s.(rows := kept, versions := left)
    else s.(rows := Stack(Order(kept, missing), PRIMARY), versions := Slotted(kept, left, missing))
  }

  ghost function Closed(s: State, after: set<Version>): State
    requires CommitsTo(s, after)
  {
    var k := s.reading.s;
    var rows := if Whole(Received(s.reading)) then s.rows[k - 1 := s.rows[k - 1].(pending := false)] else s.rows;
    s.(rows := rows, versions := after, reading := Idle)
  }

  // ---- What every step keeps ----

  ghost predicate Inv(s: State) {
    && InRange(s.versions, |s.rows|)
    && s.repo <= s.written.Keys
    && (forall name :: name in s.written ==> NothingTwice(s.written[name].items))
    && (forall i :: 0 <= i < |s.rows| ==> s.rows[i].repo == PRIMARY && s.rows[i].name in s.written)
    && (s.reading.Reading? ==>
          && 1 <= s.reading.s <= |s.rows| && s.rows[s.reading.s - 1].pending
          && Lists(s.reading.events, s.written[s.rows[s.reading.s - 1].name].items)
          && s.reading.got <= |Sent(s.reading.events, s.reading.cancel)|)
  }

  ghost predicate InTime(s: State) {
    Chronological(Slots(s.rows))
  }

  /** What is truly in the archive of a row. */
  function TrulyIn(s: State, i: nat): set<Held>
    requires i < |s.rows| && s.rows[i].name in s.written
  {
    Pairs(Contents(s.written[s.rows[i].name].items))
  }

  /** What is shown of every archive that is browsable is what it truly holds. */
  ghost predicate TellsTruth(s: State)
    requires Inv(s)
  {
    forall i :: 0 <= i < |s.rows| && !s.rows[i].pending ==> Shown(s.versions, i + 1) == TrulyIn(s, i)
  }

  /** An archive appended is not before one that is there. */
  ghost predicate AppendedInOrder(s: State, step: Step) {
    step.Append? && step.name in s.written ==>
      forall i :: 0 <= i < |s.rows| ==>
        !Precedes(Newcomer(Meta(step.name, s.written[step.name].ts)), Slots(s.rows)[i])
  }

  // ---- A sync ----

  lemma SyncedIs(s: State, entries: seq<Meta>, left: set<Version>)
    requires Inv(s) && InTime(s) && CanSync(s, entries, left)
    ensures var kept, missing := Stayed(s.rows, entries), Unknown(s.rows, entries);
            && InRange(left, |kept|) && Chronological(Slots(kept))
            && kept == Surviving(s.rows, Wanted(s.rows, PRIMARY, entries))
            && Synced(s, entries, left).rows == (if missing == [] then kept else Stack(Order(kept, missing), PRIMARY))
            && Synced(s, entries, left).versions == if missing == [] then left else Slotted(kept, left, missing)
  {
    KeptSorted(s.rows, Wanted(s.rows, PRIMARY, entries));
    hide RemovedTo, Order, Slotted, Missing, Surviving, Stayed;
    assert RemovedTo(s.versions, Wanted(s.rows, PRIMARY, entries), left);
  }

  /** What a row is after a sync: one that was there and stayed, not more
      pending nor less, or a newcomer's. */
  lemma SyncedRow(s: State, entries: seq<Meta>, left: set<Version>, i: nat) returns (k: nat)
    requires Inv(s) && InTime(s) && CanSync(s, entries, left) && i < |Synced(s, entries, left).rows|
    ensures var row := Synced(s, entries, left).rows[i];
            || (k < |s.rows| && row == s.rows[k].(expirable := row.expirable) &&
                Shown(Synced(s, entries, left).versions, i + 1) == Shown(s.versions, k + 1))
            || (row.pending && row.repo == PRIMARY && row.name in s.repo)
  {
    k := 0;
    var keep := Wanted(s.rows, PRIMARY, entries);
    var kept, missing := Stayed(s.rows, entries), Unknown(s.rows, entries);
    SyncedIs(s, entries, left);
    assert RemovedTo(s.versions, keep, left) && ListsRepo(s, entries);
    hide *;
    if missing == [] {
      k := StayedRow(s, keep, left, i);
    } else {
      var j := StackedRow(kept, left, missing, PRIMARY, i);
      if j < |kept| {
        k := StayedRow(s, keep, left, j);
      } else {
        UnknownInRepo(s, entries, Stack(Order(kept, missing), PRIMARY)[i].name);
      }
    }
  }

  lemma UnknownInRepo(s: State, entries: seq<Meta>, name: string)
    requires ListsRepo(s, entries) && Entered(Unknown(s.rows, entries), name)
    ensures name in s.repo
  {
    var missing := Unknown(s.rows, entries);
    var i :| 0 <= i < |missing| && missing[i].name == name;
    assert missing[i] in missing;
  }

  lemma StayedRow(s: State, keep: seq<bool>, left: set<Version>, i: nat) returns (k: nat)
    requires |keep| == |s.rows| && RemovedTo(s.versions, keep, left) && i < Rank(keep, |keep|)
    ensures k < |s.rows| && Surviving(s.rows, keep)[i] == s.rows[k] && Shown(left, i + 1) == Shown(s.versions, k + 1)
  {
    var told := Told(s.versions, |s.rows|);
    k := SurvivorRows(s.rows, keep, i);
    var t := Survivor(told, keep, i + 1);
    SameSurvivor(keep, k + 1, t);
    assert Told(left, Rank(keep, |keep|))[i] == told[k];
  }

  lemma SyncKeepsInv(s: State, entries: seq<Meta>, left: set<Version>)
    requires Inv(s) && InTime(s) && CanSync(s, entries, left)
    ensures Inv(Synced(s, entries, left)) && InTime(Synced(s, entries, left))
    ensures TellsTruth(s) ==> TellsTruth(Synced(s, entries, left))
  {
    var kept, missing := Stayed(s.rows, entries), Unknown(s.rows, entries);
    var next := Synced(s, entries, left);
    SyncedIs(s, entries, left);
    SlottedInRange(kept, left, missing);
    RestackedSorted(kept, missing, PRIMARY);
    hide Chronological, Slotted, Shown, Slots, Missing, InRange, Surviving, RemovedTo, Order, CanSync;
    forall i | 0 <= i < |next.rows|
      ensures next.rows[i].repo == PRIMARY && next.rows[i].name in next.written
      ensures TellsTruth(s) && !next.rows[i].pending ==> Shown(next.versions, i + 1) == TrulyIn(next, i)
    {
      var k := SyncedRow(s, entries, left, i);
    }
  }

  // ---- A commit ----

  lemma ReceivedIs(r: Reading)
    requires r.Reading? && r.got <= |Sent(r.events, r.cancel)|
    ensures r.got == |Sent(r.events, r.cancel)| ==>
              (Whole(Received(r)) <==> !CutShort(r.events, r.cancel)) &&
              (!CutShort(r.events, r.cancel) ==> !Breaks(r.events) && Received(r) == Gots(Good(r.events)))
    ensures r.got < |Sent(r.events, r.cancel)| ==>
              Batches(r.got) <= |Good(r.events)| && Whole(Received(r)) &&
              Received(r) == Gots(Good(r.events)[..Batches(r.got)])
  {
    if r.got < |Sent(r.events, r.cancel)| {
      ClosedEarly(r.events, r.cancel, r.got);
    } else {
      assert Sent(r.events, r.cancel)[..r.got] == Sent(r.events, r.cancel);
      Arriving(r.events, r.cancel);
    }
  }

  lemma ItemsAreContents(items: seq<Item>)
    requires NothingTwice(items)
    ensures Says(Gots(items)) == Pairs(Contents(items))
  {
    OnceIsListed(Gots(items));
  }

  lemma CommitShows(s: State, after: set<Version>)
    requires Inv(s) && CommitsTo(s, after)
    ensures InRange(after, |s.rows|)
    ensures Told(after, |s.rows|) ==
            if Whole(Received(s.reading)) then With(Told(s.versions, |s.rows|), s.reading.s, Says(Received(s.reading)))
            else Told(s.versions, |s.rows|)
  {
    hide Received, Says, InRange, Told;
    if Whole(Received(s.reading)) {
      ReadToIsWith(s.versions, |s.rows|, s.reading.s, Received(s.reading), after);
    }
  }

  lemma ReadToIsWith(versions: set<Version>, n: nat, k: int, items: seq<Read>, after: set<Version>)
    requires 1 <= k <= n && Whole(items) && ReadTo(versions, n, k, items, Full, after)
    ensures Told(after, n) == With(Told(versions, n), k, Says(items))
  {
    hide Says, InRange, Told;
    assert Told(versions, n)[k - 1] + Says(items) + {} == Told(versions, n)[k - 1] + Says(items);
  }

  /** More shown of one archive. */
  function With(told: seq<set<Held>>, k: int, added: set<Held>): seq<set<Held>>
    requires 1 <= k <= |told|
  {
    told[k - 1 := told[k - 1] + added]
  }

  lemma ClosedKeepsInv(s: State, after: set<Version>)
    requires Inv(s) && CommitsTo(s, after)
    ensures Inv(Closed(s, after)) && (InTime(s) ==> InTime(Closed(s, after)))
  {
    CommitShows(s, after);
    SameOrder(s.rows, Closed(s, after).rows);
    hide Received, Shown, ReadTo, InRange, Sent, Chronological, Slots;
  }

  lemma TruthWith(s: State, next: State, k: nat, added: set<Held>)
    requires Inv(s) && TellsTruth(s) && Inv(next) && next.written == s.written && 1 <= k <= |s.rows| == |next.rows|
    requires s.rows[k - 1].pending && next.rows == s.rows[k - 1 := s.rows[k - 1].(pending := false)]
    requires Told(next.versions, |s.rows|) == With(Told(s.versions, |s.rows|), k, added)
    ensures TellsTruth(next) <==> Shown(s.versions, k) + added == TrulyIn(s, k - 1)
  {
    hide Shown, Contents, Pairs, InRange;
    forall i | 0 <= i < |s.rows|
      ensures next.rows[i] == if i == k - 1 then s.rows[i].(pending := false) else s.rows[i]
      ensures Shown(next.versions, i + 1) == Shown(s.versions, i + 1) + if i == k - 1 then added else {}
    {
      assert Told(next.versions, |s.rows|)[i] == Shown(next.versions, i + 1);
    }
  }

  lemma SameTruth(s: State, next: State)
    requires Inv(s) && TellsTruth(s) && Inv(next) && next.written == s.written && next.rows == s.rows
    requires next.versions == s.versions
    ensures TellsTruth(next)
  {
    hide Shown, Contents, Pairs, InRange;
  }

  /** A row made browsable by a commit tells the truth if and only if what was
      shown of it already, and what was received, are together what it holds. */
  lemma ClosedTellsTruthIff(s: State, after: set<Version>)
    requires Inv(s) && TellsTruth(s) && CommitsTo(s, after)
    ensures Inv(Closed(s, after))
    ensures TellsTruth(Closed(s, after)) <==>
            (Whole(Received(s.reading)) ==>
               Shown(s.versions, s.reading.s) + Says(Received(s.reading)) == TrulyIn(s, s.reading.s - 1))
  {
    ClosedKeepsInv(s, after);
    CommitShows(s, after);
    hide Received, Shown, Says, ReadTo, Sent, Contents, Pairs, InRange, TellsTruth, With, Told;
    if Whole(Received(s.reading)) {
      TruthWith(s, Closed(s, after), s.reading.s, Says(Received(s.reading)));
    } else {
      SameTruth(s, Closed(s, after));
    }
  }

  lemma SameOrder(rows: seq<Row>, after: seq<Row>)
    requires |after| == |rows| && forall i :: 0 <= i < |rows| ==>
               after[i].ts == rows[i].ts && after[i].name == rows[i].name
    ensures Chronological(Slots(rows)) ==> Chronological(Slots(after))
  {
    forall i, j | 0 <= i < j < |rows|
      ensures Precedes(Slots(after)[j], Slots(after)[i]) <==> Precedes(Slots(rows)[j], Slots(rows)[i])
    {
    }
  }

  /** What came after the batches that went over was shown already. */
  predicate RestShown(items: seq<Item>, sent: nat, shown: set<Held>) {
    forall j :: sent <= j < |items| ==> Held(items[j].path, items[j].content) in shown
  }

  lemma PartIsWholeIff(items: seq<Item>, sent: nat, shown: set<Held>)
    requires NothingTwice(items) && sent <= |items|
    ensures shown + Says(Gots(items[..sent])) == Says(Gots(items)) <==>
            shown <= Says(Gots(items)) && RestShown(items, sent, shown)
  {
    var part, all := Says(Gots(items[..sent])), Says(Gots(items));
    forall j | 0 <= j < |items|
      ensures Held(items[j].path, items[j].content) in all
      ensures Held(items[j].path, items[j].content) in part <==> j < sent
    {
      assert Gots(items)[j] == Got(items[j].path, items[j].content);
      assert j < sent ==> Gots(items[..sent])[j] == Got(items[j].path, items[j].content);
    }
    forall h
      ensures h in part ==> h in all
      ensures h in all ==> h in part || exists j :: sent <= j < |items| && h == Held(items[j].path, items[j].content)
    {
      if h in part {
        var j :| 0 <= j < |Gots(items[..sent])| &&
                 h == Held(Gots(items[..sent])[j].path, Gots(items[..sent])[j].content);
        assert Gots(items)[j] == Gots(items[..sent])[j];
      }
      if h in all {
        var j :| 0 <= j < |Gots(items)| && h == Held(Gots(items)[j].path, Gots(items)[j].content);
        assert h == Held(items[j].path, items[j].content);
      }
    }
  }

  /** A step that makes no browsable row untrue. A commit does if something was
      shown of the archive that it does not hold; and if the forwarding went away
      with more to send, also if any of what never went over was not shown. */
  ghost predicate Harmless(s: State, step: Step)
    requires Enabled(s, step) && Inv(s)
  {
    match step
    case Close(_) =>
      CutShort(s.reading.events, s.reading.cancel) || Shown(s.versions, s.reading.s) <= TrulyIn(s, s.reading.s - 1)
    case Unheard(_) =>
      && Shown(s.versions, s.reading.s) <= TrulyIn(s, s.reading.s - 1)
      && RestShown(s.written[s.rows[s.reading.s - 1].name].items, Batches(s.reading.got),
                   Shown(s.versions, s.reading.s))
    case _ => true
  }

  lemma ReadingLists(s: State, after: set<Version>)
    requires Inv(s) && CommitsTo(s, after)
    ensures s.reading.Reading? && 1 <= s.reading.s <= |s.rows| && s.rows[s.reading.s - 1].name in s.written
    ensures Lists(s.reading.events, s.written[s.rows[s.reading.s - 1].name].items)
  {
    hide Received, Sent, ReadTo, InRange, NothingTwice, Lists;
  }

  lemma UnheardGave(s: State, after: set<Version>)
    requires Inv(s) && CommitsTo(s, after) && s.reading.got < |Sent(s.reading.events, s.reading.cancel)|
    ensures var r, items := s.reading, s.written[s.rows[s.reading.s - 1].name].items;
            && Batches(r.got) <= |items| && Whole(Received(r)) && Received(r) == Gots(items[..Batches(r.got)])
  {
    ReadingLists(s, after);
    ReceivedIs(s.reading);
    hide Received, Sent, Gots, Inv, CommitsTo, Whole, Good;
  }

  lemma HeardGave(s: State, after: set<Version>)
    requires Inv(s) && CommitsTo(s, after) && s.reading.got == |Sent(s.reading.events, s.reading.cancel)|
    ensures Whole(Received(s.reading)) <==> !CutShort(s.reading.events, s.reading.cancel)
    ensures Whole(Received(s.reading)) ==> Received(s.reading) == Gots(s.written[s.rows[s.reading.s - 1].name].items)
  {
    ReadingLists(s, after);
    ReceivedIs(s.reading);
    hide Received, Sent, Gots, Inv, CommitsTo, Whole, Good, CutShort;
  }

  lemma CommitHarmlessIff(s: State, step: Step)
    requires Inv(s) && TellsTruth(s) && Enabled(s, step) && (step.Close? || step.Unheard?)
    ensures Inv(Next(s, step))
    ensures TellsTruth(Next(s, step)) <==> Harmless(s, step)
  {
    hide Shown, Sent, Received, CutShort, Contents, Pairs, Gots, Says, TellsTruth, Closed;
    var r := s.reading;
    var items := s.written[s.rows[r.s - 1].name].items;
    assert CommitsTo(s, step.after) && Next(s, step) == Closed(s, step.after);
    assert NothingTwice(items) && TrulyIn(s, r.s - 1) == Pairs(Contents(items));
    ClosedTellsTruthIff(s, step.after);
    ItemsAreContents(items);
    if step.Unheard? {
      assert r.got < |Sent(r.events, r.cancel)| by {
        UnheardEarly(s, step);
      }
      UnheardGave(s, step.after);
      PartIsWholeIff(items, Batches(r.got), Shown(s.versions, r.s));
    } else {
      assert r.got == |Sent(r.events, r.cancel)| by {
        CloseLate(s, step);
      }
      HeardGave(s, step.after);
    }
  }

  lemma UnheardEarly(s: State, step: Step)
    requires Enabled(s, step) && step.Unheard?
    ensures s.reading.got < |Sent(s.reading.events, s.reading.cancel)|
  {
  }

  lemma CloseLate(s: State, step: Step)
    requires Enabled(s, step) && step.Close?
    ensures s.reading.got == |Sent(s.reading.events, s.reading.cancel)|
  {
  }

  // ---- A step ----

  lemma AppendKeeps(s: State, name: string)
    requires Inv(s) && InTime(s) && Enabled(s, Append(name))
    ensures Inv(Next(s, Append(name)))
    ensures TellsTruth(s) ==> TellsTruth(Next(s, Append(name)))
    ensures InTime(Next(s, Append(name))) <==> AppendedInOrder(s, Append(name))
  {
    var next := Next(s, Append(name));
    var last := Newcomer(Meta(name, s.written[name].ts));
    var n := |s.rows|;
    hide Shown, Contents, Pairs, Precedes, Sent, Lists;
    assert next.rows[..n] == s.rows;
    forall i | 0 <= i < n
      ensures Slots(next.rows)[i] == Slots(s.rows)[i] && next.rows[i] == s.rows[i]
      ensures Precedes(Slots(next.rows)[n], Slots(next.rows)[i]) <==> Precedes(last, Slots(s.rows)[i])
    {
      SameTimeAndName(Slots(next.rows)[n], last, Slots(s.rows)[i]);
    }
  }

  lemma SameTimeAndName(a: Slot, b: Slot, c: Slot)
    requires a.Ts() == b.Ts() && a.Name() == b.Name()
    ensures Precedes(a, c) <==> Precedes(b, c)
  {
  }

  lemma WriteKeeps(s: State, name: string, archive: Archive)
    requires Inv(s) && Enabled(s, Write(name, archive))
    ensures Inv(Next(s, Write(name, archive)))
    ensures TellsTruth(s) ==> TellsTruth(Next(s, Write(name, archive)))
  {
    hide Shown, Contents, Pairs, Sent, Lists, InRange;
    var next := Next(s, Write(name, archive));
    assert forall i :: 0 <= i < |s.rows| ==> next.written[s.rows[i].name] == s.written[s.rows[i].name];
  }

  /** The steps that touch neither rows nor archives. */
  predicate Quiet(step: Step) {
    step.Prune? || step.Open? || step.Receive? || step.Crash?
  }

  lemma QuietKeeps(s: State, step: Step)
    requires Inv(s) && Enabled(s, step) && Quiet(step)
    ensures Inv(Next(s, step)) && Next(s, step).rows == s.rows && Next(s, step).versions == s.versions
    ensures Next(s, step).written == s.written
    ensures TellsTruth(s) ==> TellsTruth(Next(s, step))
  {
    hide Shown, Contents, Pairs, InRange, NothingTwice;
  }

  /** A step keeps the catalogue in order if and only if it is not an archive
      appended before one that is there, and keeps what is shown of every
      browsable archive true if and only if it is harmless. */
  lemma StepTellsTruthIff(s: State, step: Step)
    requires Inv(s) && InTime(s) && TellsTruth(s) && Enabled(s, step)
    ensures Inv(Next(s, step))
    ensures InTime(Next(s, step)) <==> AppendedInOrder(s, step)
    ensures TellsTruth(Next(s, step)) <==> Harmless(s, step)
  {
    if Quiet(step) {
      QuietKeeps(s, step);
    } else {
      hide TellsTruth, Inv, Slots, Chronological, Harmless;
      match step {
        case Write(name, archive) => WriteKeeps(s, name, archive);
        case Sync(entries, left) => SyncKeepsInv(s, entries, left);
        case Append(name) => AppendKeeps(s, name);
        case Close(after) => ClosedKeepsInv(s, after);
        case Unheard(after) => ClosedKeepsInv(s, after);
        case _ =>
      }
      if step.Close? || step.Unheard? {
        CommitHarmlessIff(s, step);
      } else {
        OthersHarmless(s, step);
      }
    }
  }

  lemma OthersHarmless(s: State, step: Step)
    requires Inv(s) && Enabled(s, step) && !step.Close? && !step.Unheard?
    ensures Harmless(s, step)
  {
  }

  // ---- Nothing said of what nobody has read ----

  ghost predicate AllWritten(rows: seq<Row>, written: map<string, Archive>) {
    forall i :: 0 <= i < |rows| ==> rows[i].name in written
  }

  /** What is known of each row's archive: nothing, until it is read. */
  ghost function TruthOf(rows: seq<Row>, written: map<string, Archive>): (history: seq<Listing>)
    requires AllWritten(rows, written)
    ensures |history| == |rows|
    ensures forall i :: 0 <= i < |rows| ==>
              history[i] == if rows[i].pending then map[] else Contents(written[rows[i].name].items)
  {
    seq(|rows|, i requires 0 <= i < |rows| => if rows[i].pending then map[] else Contents(written[rows[i].name].items))
  }

  ghost function Truth(s: State): (history: seq<Listing>)
    requires Inv(s)
    ensures |history| == |s.rows|
  {
    TruthOf(s.rows, s.written)
  }

  /** The catalogue is in order, and its rows are exactly the encoding of what is
      known: what the archives read hold, and nothing of the others. */
  ghost predicate Sound(s: State)
    requires Inv(s)
  {
    InTime(s) && Encodes(s.versions, Truth(s))
  }

  lemma SoundTellsTruth(s: State)
    requires Inv(s) && Sound(s)
    ensures TellsTruth(s)
    ensures forall i :: 0 <= i < |s.rows| && s.rows[i].pending ==> Shown(s.versions, i + 1) == {}
  {
    hide InRange, Encodes, Shown, Contents, Pairs, InTime;
    NoPairs(map[]);
    forall i | 0 <= i < |s.rows|
      ensures Shown(s.versions, i + 1) == Pairs(Truth(s)[i])
    {
      EncodedShows(s.versions, Truth(s), i + 1);
    }
  }

  /** A step that keeps the catalogue sound: archives are appended in order, no
      two newcomers are slotted in next to each other between archives that share
      an unchanged file, and no forwarding goes away with more to send. */
  ghost predicate Careful(s: State, step: Step)
    requires Enabled(s, step) && Inv(s)
  {
    match step
    case Append(_) => AppendedInOrder(s, step)
    case Sync(entries, left) =>
      Unknown(s.rows, entries) == [] || Clear(left, Known(Order(Stayed(s.rows, entries), Unknown(s.rows, entries))))
    case Unheard(_) => Batches(s.reading.got) == |s.written[s.rows[s.reading.s - 1].name].items|
    case _ => true
  }

  lemma TruthStays(rows: seq<Row>, written: map<string, Archive>, keep: seq<bool>)
    requires AllWritten(rows, written) && |keep| == |rows|
    ensures AllWritten(Surviving(rows, keep), written)
    ensures Surviving(TruthOf(rows, written), keep) == TruthOf(Surviving(rows, keep), written)
  {
    var kept, history := Surviving(rows, keep), TruthOf(rows, written);
    forall i | 0 <= i < |kept|
      ensures kept[i].name in written
      ensures Surviving(history, keep)[i] == if kept[i].pending then map[] else Contents(written[kept[i].name].items)
    {
      var k := SurvivorRows(rows, keep, i);
      var t := Survivor(history, keep, i + 1);
      SameSurvivor(keep, k + 1, t);
    }
  }

  lemma TruthSlotted(kept: seq<Row>, written: map<string, Archive>, missing: seq<Meta>)
    requires AllWritten(kept, written) && Chronological(Slots(kept))
    requires forall name :: Entered(missing, name) ==> name in written
    ensures var order := Order(kept, missing);
            && AllWritten(Stack(order, PRIMARY), written) && Rank(Known(order), |order|) == |kept|
            && TruthOf(Stack(order, PRIMARY), written) == Spread(TruthOf(kept, written), Known(order))
  {
    ExistingInOrder(kept, missing);
    var order := Order(kept, missing);
    var known := Known(order);
    assert order[..|order|] == order;
    RankCountsExisting(order, |order|);
    hide Order, Chronological, Slots, OnlyExisting, Contents, Rank;
    forall i | 0 <= i < |order|
      ensures Stack(order, PRIMARY)[i].name in written
      ensures Spread(TruthOf(kept, written), known)[i] ==
              if Stack(order, PRIMARY)[i].pending then map[] else Contents(written[Stack(order, PRIMARY)[i].name].items)
    {
      TruthOfSlot(kept, written, missing, order, i);
    }
  }

  lemma TruthOfSlot(kept: seq<Row>, written: map<string, Archive>, missing: seq<Meta>, order: seq<Slot>, i: nat)
    requires AllWritten(kept, written) && order == Order(kept, missing) && i < |order|
    requires OnlyExisting(order) == Slots(kept) && Rank(Known(order), |order|) == |kept|
    requires forall name :: Entered(missing, name) ==> name in written
    ensures var row := Restacked(order[i], PRIMARY);
            && row.name in written
            && Spread(TruthOf(kept, written), Known(order))[i] ==
               if row.pending then map[] else Contents(written[row.name].items)
  {
    hide Order, OnlyExisting, Slots, Rank, Known, Spread, TruthOf, Entered, Contents;
    RestackedIs(order[i]);
    SpreadAt(TruthOf(kept, written), Known(order), i);
    if order[i].Existing? {
      SlotRow(kept, order, i);
    } else {
      OrderMembers(kept, missing, order[i]);
      NewcomerEntered(kept, missing, order[i]);
    }
  }

  lemma RestackedIs(slot: Slot)
    ensures var row := Restacked(slot, PRIMARY);
            && row.name == slot.Name() && (slot.Newcomer? ==> row.pending && row.name == slot.meta.name)
            && (slot.Existing? ==> row.name == slot.row.name && row.pending == slot.row.pending)
  {
  }

  lemma SyncSoundlyIff(s: State, entries: seq<Meta>, left: set<Version>)
    requires Inv(s) && Sound(s) && CanSync(s, entries, left)
    ensures Inv(Synced(s, entries, left))
    ensures Sound(Synced(s, entries, left)) <==> Careful(s, Sync(entries, left))
  {
    var keep := Wanted(s.rows, PRIMARY, entries);
    var kept, missing := Stayed(s.rows, entries), Unknown(s.rows, entries);
    var next := Synced(s, entries, left);
    SyncKeepsInv(s, entries, left);
    SyncedIs(s, entries, left);
    TruthStays(s.rows, s.written, keep);
    assert RemovedTo(s.versions, keep, left);
    var history := TruthOf(kept, s.written);
    assert Encodes(left, history);
    forall name | Entered(missing, name)
      ensures name in s.written
    {
      UnknownInRepo(s, entries, name);
    }
    hide Encodes, Slots, InRange, Contents, Chronological, Order, Clear, Spread, Partly;
    if missing != [] {
      SlottedSoundIff(kept, s.written, missing, left);
    }
  }

  lemma SlottedSoundIff(kept: seq<Row>, written: map<string, Archive>, missing: seq<Meta>, left: set<Version>)
    requires AllWritten(kept, written) && Chronological(Slots(kept)) && InRange(left, |kept|)
    requires forall name :: Entered(missing, name) ==> name in written
    requires Encodes(left, TruthOf(kept, written))
    ensures AllWritten(Stack(Order(kept, missing), PRIMARY), written)
    ensures Encodes(Slotted(kept, left, missing), TruthOf(Stack(Order(kept, missing), PRIMARY), written)) <==>
            Clear(left, Known(Order(kept, missing)))
  {
    var history, known := TruthOf(kept, written), Known(Order(kept, missing));
    TruthSlotted(kept, written, missing);
    SlottedIsSplit(kept, left, missing);
    hide *;
    SyncSoundIff(left, history, known);
    ClearIsSpaced(left, history, known);
  }

  /** A sync that is not careful leaves something shown of an archive nobody has
      read: reading it in then makes a row that lies, unless the archive holds it
      after all. */
  lemma UncarefulSyncShows(s: State, entries: seq<Meta>, left: set<Version>) returns (i: nat)
    requires Inv(s) && Sound(s) && CanSync(s, entries, left) && !Careful(s, Sync(entries, left))
    ensures i < |Synced(s, entries, left).rows| && Synced(s, entries, left).rows[i].pending
    ensures Shown(Synced(s, entries, left).versions, i + 1) != {}
  {
    var kept, missing := Stayed(s.rows, entries), Unknown(s.rows, entries);
    var order := Order(kept, missing);
    SyncedIs(s, entries, left);
    SlottedIsSplit(kept, left, missing);
    NewcomersBlankIff(left, Known(order));
    hide Order, Chronological, Slots, Slotted, Shown, Clear, SplitTo, InRange, Sound, Inv, CanSync, Missing, Stayed;
    var k :| 1 <= k <= |order| && !Known(order)[k - 1] && Shown(Slotted(kept, left, missing), k) != {};
    i := k - 1;
  }

  /** A part of a listing is not what the archive holds. */
  lemma PartIsNotWhole(items: seq<Item>, sent: nat)
    requires NothingTwice(items) && sent <= |items|
    ensures Contents(items[..sent]) == Contents(items) <==> sent == |items|
  {
    if sent < |items| {
      var missed := items[sent].path;
      ListedHolds(Gots(items), missed);
      ListedHolds(Gots(items[..sent]), missed);
      assert Gots(items)[sent].path == missed;
      forall i | 0 <= i < sent
        ensures Gots(items[..sent])[i].path != missed
      {
        assert items[..sent][i] == items[i];
      }
    } else {
      assert items[..sent] == items;
    }
  }

  lemma PartFits(items: seq<Item>, sent: nat, k: int, n: nat)
    requires NothingTwice(items) && sent <= |items|
    ensures Fits(Gots(items[..sent]), Full, k, n)
  {
    forall i, j | 0 <= i < j < sent
      ensures Gots(items[..sent])[i].path != Gots(items[..sent])[j].path
    {
      assert items[..sent][i] == items[i] && items[..sent][j] == items[j];
    }
  }

  /** Rows that encoded a history encode it with an archive as it truly is if
      and only if all that is in it was read. */
  lemma PartReadEncodesIff(versions: set<Version>, history: seq<Listing>, k: int, items: seq<Item>, sent: nat,
                           after: set<Version>)
    requires Encodes(versions, history) && 1 <= k <= |history| && history[k - 1] == map[]
    requires NothingTwice(items) && sent <= |items|
    requires ReadTo(versions, |history|, k, Gots(items[..sent]), Full, after)
    ensures Encodes(after, history[k - 1 := Contents(items)]) <==> sent == |items|
  {
    var truth, outcome := history[k - 1 := Contents(items)], history[k - 1 := Contents(items[..sent])];
    PartFits(items, sent, k, |history|);
    PartIsNotWhole(items, sent);
    OutcomeIs(history, k, items[..sent]);
    hide Encodes, Contents, Gots, Fits, ReadTo, NothingTwice;
    ReadToEncodes(versions, history, k, Gots(items[..sent]), Full, after);
    if Encodes(after, truth) {
      OneHistory(after, truth, outcome);
      assert truth[k - 1] == outcome[k - 1];
    }
  }

  lemma ClosedTruth(s: State, after: set<Version>)
    requires Inv(s) && InTime(s) && CommitsTo(s, after) && Whole(Received(s.reading))
    ensures var k := s.reading.s;
            && Inv(Closed(s, after)) && InTime(Closed(s, after)) && Closed(s, after).versions == after
            && Truth(s)[k - 1] == map[]
            && Truth(Closed(s, after)) == Truth(s)[k - 1 := Contents(s.written[s.rows[k - 1].name].items)]
  {
    ClosedKeepsInv(s, after);
    hide Contents, Received, Sent, InRange, ReadTo, InTime;
  }

  lemma SoundIs(s: State)
    requires Inv(s)
    ensures Sound(s) <==> InTime(s) && Encodes(s.versions, Truth(s))
  {
  }

  /** What a commit of the first `sent` items leaves of sound rows. */
  lemma CommitSoundIff(s: State, after: set<Version>, items: seq<Item>, sent: nat)
    requires Inv(s) && Sound(s) && CommitsTo(s, after)
    requires items == s.written[s.rows[s.reading.s - 1].name].items && sent <= |items|
    requires Whole(Received(s.reading)) && Received(s.reading) == Gots(items[..sent])
    ensures Inv(Closed(s, after))
    ensures Sound(Closed(s, after)) <==> sent == |items|
  {
    hide *;
    SoundIs(s);
    CommitReads(s, after);
    ClosedTruth(s, after);
    SoundIs(Closed(s, after));
    PartReadEncodesIff(s.versions, Truth(s), s.reading.s, items, sent, after);
  }

  lemma CommitReads(s: State, after: set<Version>)
    requires Inv(s) && CommitsTo(s, after) && Whole(Received(s.reading))
    ensures s.reading.Reading? && 1 <= s.reading.s <= |s.rows| && s.rows[s.reading.s - 1].name in s.written
    ensures ReadTo(s.versions, |s.rows|, s.reading.s, Received(s.reading), Full, after)
    ensures NothingTwice(s.written[s.rows[s.reading.s - 1].name].items)
  {
    hide ReadTo, Received, Sent, InRange, Lists, NothingTwice;
  }

  lemma OutcomeIs(history: seq<Listing>, k: int, items: seq<Item>)
    requires 1 <= k <= |history|
    ensures Outcome(history, k, Gots(items), Full) == history[k - 1 := Contents(items)]
  {
  }

  lemma CutOffKeepsSound(s: State, after: set<Version>)
    requires Inv(s) && Sound(s) && CommitsTo(s, after) && !Whole(Received(s.reading))
    ensures Inv(Closed(s, after)) && Sound(Closed(s, after))
  {
    ClosedKeepsInv(s, after);
    hide Encodes, Contents, Received, Sent, InRange, ReadTo, InTime;
  }

  lemma CloseKeepsSound(s: State, after: set<Version>)
    requires Inv(s) && Sound(s) && CommitsTo(s, after) && s.reading.got == |Sent(s.reading.events, s.reading.cancel)|
    ensures Inv(Closed(s, after)) && Sound(Closed(s, after))
  {
    hide *;
    ReadingLists(s, after);
    HeardGave(s, after);
    if Whole(Received(s.reading)) {
      var items := s.written[s.rows[s.reading.s - 1].name].items;
      assert items[..|items|] == items;
      CommitSoundIff(s, after, items, |items|);
    } else {
      CutOffKeepsSound(s, after);
    }
  }

  lemma UnheardSoundIff(s: State, after: set<Version>)
    requires Inv(s) && Sound(s) && CommitsTo(s, after) && s.reading.got < |Sent(s.reading.events, s.reading.cancel)|
    ensures Inv(Closed(s, after))
    ensures Sound(Closed(s, after)) <==> Batches(s.reading.got) == |s.written[s.rows[s.reading.s - 1].name].items|
  {
    hide *;
    ReadingLists(s, after);
    UnheardGave(s, after);
    CommitSoundIff(s, after, s.written[s.rows[s.reading.s - 1].name].items, Batches(s.reading.got));
  }

  lemma CommitCarefulIff(s: State, step: Step)
    requires Inv(s) && Sound(s) && Enabled(s, step) && (step.Close? || step.Unheard?)
    ensures Inv(Next(s, step))
    ensures Sound(Next(s, step)) <==> Careful(s, step)
  {
    hide Inv, Sent, Received, Sound, CommitsTo, Closed;
    assert CommitsTo(s, step.after) && Next(s, step) == Closed(s, step.after);
    if step.Unheard? {
      UnheardEarly(s, step);
      UnheardSoundIff(s, step.after);
    } else {
      CloseLate(s, step);
      CloseKeepsSound(s, step.after);
    }
  }

  lemma AppendSoundIff(s: State, name: string)
    requires Inv(s) && Sound(s) && Enabled(s, Append(name))
    ensures Inv(Next(s, Append(name)))
    ensures Sound(Next(s, Append(name))) <==> AppendedInOrder(s, Append(name))
  {
    AppendKeeps(s, name);
    var next := Next(s, Append(name));
    AppendEncodes(s.versions, Truth(s));
    hide Encodes, Contents, InTime, InRange;
    assert Truth(next) == Truth(s) + [map[]];
  }

  lemma WriteKeepsSound(s: State, name: string, archive: Archive)
    requires Inv(s) && Sound(s) && Enabled(s, Write(name, archive))
    ensures Inv(Next(s, Write(name, archive))) && Sound(Next(s, Write(name, archive)))
  {
    WriteKeeps(s, name, archive);
    hide Encodes, Contents, InTime, InRange;
    assert Truth(Next(s, Write(name, archive))) == Truth(s);
  }

  lemma QuietKeepsSound(s: State, step: Step)
    requires Inv(s) && Sound(s) && Enabled(s, step) && Quiet(step)
    ensures Inv(Next(s, step)) && Sound(Next(s, step))
  {
    QuietKeeps(s, step);
    hide Encodes, Contents, Chronological, InRange;
    assert Truth(Next(s, step)) == Truth(s);
  }

  /** From a sound catalogue a step leaves a sound one if and only if it is a
      careful one. */
  lemma StepSoundIff(s: State, step: Step)
    requires Inv(s) && Sound(s) && Enabled(s, step)
    ensures Inv(Next(s, step))
    ensures Sound(Next(s, step)) <==> Careful(s, step)
  {
    if Quiet(step) {
      QuietKeepsSound(s, step);
    } else {
      match step {
        case Write(name, archive) => WriteKeepsSound(s, name, archive);
        case Sync(entries, left) => SyncSoundlyIff(s, entries, left);
        case Append(name) => AppendSoundIff(s, name);
        case Close(after) => CommitCarefulIff(s, step);
        case Unheard(after) => CommitCarefulIff(s, step);
        case _ =>
      }
      hide Sound, Inv, Clear, Order, AppendedInOrder;
    }
  }

  // ---- Every run ----

  ghost predicate Runs(s: State, steps: seq<Step>)
    decreases |steps|
  {
    steps != [] ==> Enabled(s, steps[0]) && Runs(Next(s, steps[0]), steps[1..])
  }

  ghost function After(s: State, steps: seq<Step>): State
    requires Runs(s, steps)
    decreases |steps|
  {
    if steps == [] then s else After(Next(s, steps[0]), steps[1..])
  }

  /** The steps that are careful where they are taken. */
  ghost predicate AllCareful(s: State, steps: seq<Step>)
    requires Inv(s) && Runs(s, steps)
    decreases |steps|
  {
    steps != [] ==>
      Careful(s, steps[0]) && Inv(Next(s, steps[0])) && AllCareful(Next(s, steps[0]), steps[1..])
  }

  /** The catalogue is sound at every point of the run. */
  ghost predicate AlwaysSound(s: State, steps: seq<Step>)
    requires Runs(s, steps)
    decreases |steps|
  {
    Inv(s) && Sound(s) && (steps != [] ==> AlwaysSound(Next(s, steps[0]), steps[1..]))
  }

  /** Whatever happens in between, a catalogue that was sound stays so throughout
      if and only if every step is a careful one. */
  lemma {:induction false} AlwaysSoundIff(s: State, steps: seq<Step>)
    requires Inv(s) && Sound(s) && Runs(s, steps)
    ensures AlwaysSound(s, steps) <==> AllCareful(s, steps)
    decreases |steps|
  {
    hide Sound, Inv, Careful, Enabled, Next;
    if steps != [] {
      StepSoundIff(s, steps[0]);
      var next := Next(s, steps[0]);
      if Careful(s, steps[0]) {
        AlwaysSoundIff(next, steps[1..]);
      } else {
        assert !AlwaysSound(next, steps[1..]);
      }
    }
  }

  lemma {:induction false} EndsSound(s: State, steps: seq<Step>)
    requires Runs(s, steps) && AlwaysSound(s, steps)
    ensures Inv(After(s, steps)) && Sound(After(s, steps))
    decreases |steps|
  {
    hide Sound, Inv, Enabled, Next;
    if steps != [] {
      EndsSound(Next(s, steps[0]), steps[1..]);
    }
  }

  /** The steps that are harmless where they are taken, and keep the order. */
  ghost predicate AllHarmless(s: State, steps: seq<Step>)
    requires Inv(s) && Runs(s, steps)
    decreases |steps|
  {
    steps != [] ==>
      && AppendedInOrder(s, steps[0]) && Harmless(s, steps[0])
      && Inv(Next(s, steps[0])) && AllHarmless(Next(s, steps[0]), steps[1..])
  }

  ghost predicate AlwaysTrue(s: State, steps: seq<Step>)
    requires Runs(s, steps)
    decreases |steps|
  {
    Inv(s) && InTime(s) && TellsTruth(s) && (steps != [] ==> AlwaysTrue(Next(s, steps[0]), steps[1..]))
  }

  /** What is shown of the browsable archives is true throughout, in a catalogue
      kept in order, if and only if every step is harmless: whatever the rows
      are, and whatever syncs have left said of archives nobody has read. */
  lemma {:induction false} AlwaysTrueIff(s: State, steps: seq<Step>)
    requires Inv(s) && InTime(s) && TellsTruth(s) && Runs(s, steps)
    ensures AlwaysTrue(s, steps) <==> AllHarmless(s, steps)
    decreases |steps|
  {
    hide TellsTruth, InTime, Inv, Harmless, AppendedInOrder, Enabled, Next;
    if steps != [] {
      StepTellsTruthIff(s, steps[0]);
      var next := Next(s, steps[0]);
      if AppendedInOrder(s, steps[0]) && Harmless(s, steps[0]) {
        AlwaysTrueIff(next, steps[1..]);
      } else {
        assert !AlwaysTrue(next, steps[1..]);
      }
    }
  }

  // ---- Browsable only once read ----

  ghost predicate SomeBrowsable(s: State, name: string) {
    exists i :: 0 <= i < |s.rows| && s.rows[i].name == name && !s.rows[i].pending
  }

  /** The step reads the listing of an archive of this name to its end. */
  ghost predicate ReadsToEnd(s: State, step: Step, name: string)
    requires Inv(s) && Enabled(s, step)
  {
    && s.reading.Reading? && s.rows[s.reading.s - 1].name == name
    && ((step.Close? && !CutShort(s.reading.events, s.reading.cancel)) ||
        (step.Unheard? && Batches(s.reading.got) == |s.written[name].items|))
  }

  ghost predicate WasRead(s: State, steps: seq<Step>, name: string)
    requires Runs(s, steps)
    decreases |steps|
  {
    Inv(s) && steps != [] && (ReadsToEnd(s, steps[0], name) || WasRead(Next(s, steps[0]), steps[1..], name))
  }

  lemma StepBrowsable(s: State, step: Step, name: string)
    requires Inv(s) && InTime(s) && Enabled(s, step) && Careful(s, step) && SomeBrowsable(Next(s, step), name)
    ensures SomeBrowsable(s, name) || ReadsToEnd(s, step, name)
  {
    var next := Next(s, step);
    var i :| 0 <= i < |next.rows| && next.rows[i].name == name && !next.rows[i].pending;
    if step.Sync? {
      var k := SyncedRow(s, step.entries, step.left, i);
    } else if step.Close? || step.Unheard? {
      CommitBrowsable(s, step, name, i);
    } else {
      hide InRange, Sent, Lists, ListsRepo, RemovedTo, NothingTwice;
      assert next.rows[i] in s.rows || step.Append?;
    }
  }

  lemma CommitBrowsable(s: State, step: Step, name: string, i: nat)
    requires Inv(s) && Enabled(s, step) && Careful(s, step) && (step.Close? || step.Unheard?)
    requires i < |Next(s, step).rows| && Next(s, step).rows[i].name == name && !Next(s, step).rows[i].pending
    ensures SomeBrowsable(s, name) || ReadsToEnd(s, step, name)
  {
    assert CommitsTo(s, step.after) && Next(s, step) == Closed(s, step.after);
    if step.Close? {
      CloseLate(s, step);
      HeardGave(s, step.after);
    }
    hide InRange, Sent, Lists, Received, ReadTo, NothingTwice, CutShort, Good, Gots;
    assert i != s.reading.s - 1 ==> Next(s, step).rows[i] == s.rows[i];
  }

  /** An archive nobody has read to its end is pending, or unknown. */
  lemma {:induction false} BrowsableWasRead(s: State, steps: seq<Step>, name: string)
    requires Inv(s) && Sound(s) && Runs(s, steps) && AllCareful(s, steps) && SomeBrowsable(After(s, steps), name)
    ensures SomeBrowsable(s, name) || WasRead(s, steps, name)
    decreases |steps|
  {
    hide Careful, Enabled, Next, Inv, SomeBrowsable, ReadsToEnd;
    if steps != [] {
      StepSoundIff(s, steps[0]);
      var next := Next(s, steps[0]);
      BrowsableWasRead(next, steps[1..], name);
      if SomeBrowsable(next, name) {
        StepBrowsable(s, steps[0], name);
      }
    }
  }

  // ---- From the start ----

  /** No archive written, and no catalogue. */
  const START := State(map[], {}, [], {}, Idle)

  lemma StartSound()
    ensures Inv(START) && Sound(START)
  {
    NothingEncodes();
    assert Truth(START) == [];
  }

  /** Over every run of careful steps, the catalogue's rows are exactly the
      encoding of what the archives read truly hold: what it shows of an archive
      that is browsable is what is in it, and of the others nothing. */
  lemma EveryRunTellsTruth(steps: seq<Step>)
    requires Inv(START) && Runs(START, steps) && AllCareful(START, steps)
    ensures var end := After(START, steps);
            && Inv(end) && Encodes(end.versions, Truth(end)) && TellsTruth(end)
            && (forall i :: 0 <= i < |end.rows| && end.rows[i].pending ==> Shown(end.versions, i + 1) == {})
            && (forall i :: 0 <= i < |end.rows| && !end.rows[i].pending ==> WasRead(START, steps, end.rows[i].name))
  {
    StartSound();
    AlwaysSoundIff(START, steps);
    EndsSound(START, steps);
    SoundTellsTruth(After(START, steps));
    AllWereRead(steps);
  }

  lemma AllWereRead(steps: seq<Step>)
    requires Inv(START) && Runs(START, steps) && AllCareful(START, steps)
    ensures var end := After(START, steps);
            forall i :: 0 <= i < |end.rows| && !end.rows[i].pending ==> WasRead(START, steps, end.rows[i].name)
  {
    StartSound();
    hide Inv, Sound, AllCareful, Runs, After, WasRead;
    var end := After(START, steps);
    forall i | 0 <= i < |end.rows| && !end.rows[i].pending
      ensures WasRead(START, steps, end.rows[i].name)
    {
      assert SomeBrowsable(end, end.rows[i].name);
      BrowsableWasRead(START, steps, end.rows[i].name);
    }
  }

  // ---- Catching up, uninterrupted ----

  /** Whether the archive read in turn `t` is: its listing opens, goes to its
      end, and the job has not been cancelled before it. */
  predicate IsRead(listings: map<string, seq<Event>>, cancel: Option<nat>, t: nat, name: string) {
    !SeenCancelled(cancel, t) && name in listings && !Breaks(listings[name])
  }

  /** Whether the archive of a row is among those read in the first `done` turns. */
  ghost predicate ReadBy(rows: seq<Row>, order: seq<nat>, listings: map<string, seq<Event>>, cancel: Option<nat>,
                         done: nat, i: nat)
    requires done <= |order| && i < |rows|
  {
    exists t :: 0 <= t < done && order[t] == i + 1 && IsRead(listings, cancel, t, rows[i].name)
  }

  ghost function Adds(rows: seq<Row>, order: seq<nat>, listings: map<string, seq<Event>>, cancel: Option<nat>,
                      done: nat, i: nat): set<Held>
    requires done <= |order| && i < |rows|
  {
    if ReadBy(rows, order, listings, cancel, done, i) then Says(Gots(Good(listings[rows[i].name]))) else {}
  }

  /** The archives read in the first `done` turns are browsable, and no others
      that were not. */
  ghost predicate BrowsableUpTo(rows: seq<Row>, order: seq<nat>, listings: map<string, seq<Event>>, cancel: Option<nat>,
                                done: nat, afterRows: seq<Row>)
    requires done <= |order|
  {
    && |afterRows| == |rows|
    && (forall i :: 0 <= i < |rows| ==>
          afterRows[i] ==
          if ReadBy(rows, order, listings, cancel, done, i) then rows[i].(pending := false) else rows[i])
  }

  /** What the first `done` turns leave: what is listed is shown besides, and
      those read are browsable. */
  ghost predicate ReadUpTo(rows: seq<Row>, versions: set<Version>, order: seq<nat>, listings: map<string, seq<Event>>,
                           cancel: Option<nat>, done: nat, afterRows: seq<Row>, after: set<Version>)
    requires done <= |order|
  {
    && BrowsableUpTo(rows, order, listings, cancel, done, afterRows) && InRange(after, |rows|)
    && (forall i :: 0 <= i < |rows| ==>
          Told(after, |rows|)[i] == Told(versions, |rows|)[i] + Adds(rows, order, listings, cancel, done, i))
  }

  lemma NoTurnTaken(rows: seq<Row>, versions: set<Version>, order: seq<nat>, listings: map<string, seq<Event>>,
                    cancel: Option<nat>)
    ensures BrowsableUpTo(rows, order, listings, cancel, 0, rows)
    ensures InRange(versions, |rows|) ==> ReadUpTo(rows, versions, order, listings, cancel, 0, rows, versions)
  {
    hide Told, InRange;
  }

  lemma OneMoreTurnBy(rows: seq<Row>, order: seq<nat>, listings: map<string, seq<Event>>, cancel: Option<nat>, t: nat,
                      i: nat)
    requires t < |order| && (forall x, y :: 0 <= x < y < |order| ==> order[x] > order[y]) && i < |rows|
    ensures ReadBy(rows, order, listings, cancel, t + 1, i) <==>
            if order[t] == i + 1 then IsRead(listings, cancel, t, rows[i].name)
            else ReadBy(rows, order, listings, cancel, t, i)
    ensures order[t] == i + 1 ==> !ReadBy(rows, order, listings, cancel, t, i)
  {
    hide IsRead;
  }

  lemma TurnBrowsable(rows: seq<Row>, order: seq<nat>, listings: map<string, seq<Event>>, cancel: Option<nat>, t: nat,
                      k: nat, midRows: seq<Row>, afterRows: seq<Row>)
    requires t < |order| && order[t] == k && 1 <= k <= |rows|
    requires forall x, y :: 0 <= x < y < |order| ==> order[x] > order[y]
    requires BrowsableUpTo(rows, order, listings, cancel, t, midRows)
    requires if IsRead(listings, cancel, t, rows[k - 1].name)
             then afterRows == midRows[k - 1 := midRows[k - 1].(pending := false)]
             else afterRows == midRows
    ensures BrowsableUpTo(rows, order, listings, cancel, t + 1, afterRows)
  {
    hide ReadBy, Breaks;
    forall i | 0 <= i < |rows|
      ensures afterRows[i] ==
              if ReadBy(rows, order, listings, cancel, t + 1, i) then rows[i].(pending := false) else rows[i]
    {
      OneMoreTurnBy(rows, order, listings, cancel, t, i);
    }
  }

  /** A turn in which the archive is read, or is not. */
  lemma TurnTaken(rows: seq<Row>, versions: set<Version>, order: seq<nat>, listings: map<string, seq<Event>>,
                  cancel: Option<nat>, t: nat, k: nat, midRows: seq<Row>, mid: set<Version>, afterRows: seq<Row>,
                  after: set<Version>)
    requires t < |order| && order[t] == k && 1 <= k <= |rows|
    requires forall x, y :: 0 <= x < y < |order| ==> order[x] > order[y]
    requires ReadUpTo(rows, versions, order, listings, cancel, t, midRows, mid)
    requires BrowsableUpTo(rows, order, listings, cancel, t + 1, afterRows)
    requires if IsRead(listings, cancel, t, rows[k - 1].name)
             then ReadTo(mid, |rows|, k, Gots(Good(listings[rows[k - 1].name])), Full, after)
             else after == mid
    ensures ReadUpTo(rows, versions, order, listings, cancel, t + 1, afterRows, after)
  {
    hide Told, InRange, Says, Gots, Good, Breaks, ReadBy, ReadTo;
    var name := rows[k - 1].name;
    if IsRead(listings, cancel, t, name) {
      ReadToIsWith(mid, |rows|, k, Gots(Good(listings[name])), after);
      ReadToShows(mid, |rows|, k, Gots(Good(listings[name])), after, 0);
    }
    forall i | 0 <= i < |rows|
      ensures Told(after, |rows|)[i] == Told(versions, |rows|)[i] + Adds(rows, order, listings, cancel, t + 1, i)
    {
      OneMoreTurnBy(rows, order, listings, cancel, t, i);
    }
  }

  /** Match the repository, and read in everything outstanding, newest first.
      `listings` is what the engine gives for each archive whose listing opens;
      `synced` and `between` are the catalogue as the sync left it. Which archives
      become browsable does not depend on the catalogue's order; what they come to
      show, of a catalogue in order, is what was shown and what is listed. */
  method CatchUp(w: Writer, entries: seq<Meta>, listings: map<string, seq<Event>>, cancel: Option<nat>)
    returns (ghost left: set<Version>, ghost synced: seq<Row>, ghost between: set<Version>)
    requires w.Valid()
    modifies w
    ensures Matched(old(w.rows), old(w.versions), PRIMARY, entries, left, synced, between)
    ensures forall other, name :: Recorded(synced, other, name) <==>
              if other == "primary" then Entered(entries, name) else old(Recorded(w.rows, other, name))
    ensures BrowsableUpTo(synced, Outstanding(synced), listings, cancel, |Outstanding(synced)|, w.rows)
    ensures old(Chronological(Slots(w.rows))) ==>
              && w.Valid()
              && ReadUpTo(synced, between, Outstanding(synced), listings, cancel, |Outstanding(synced)|, w.rows,
                          w.versions)
  {
    hide ReadTo, ReadUpTo, BrowsableUpTo, Matched, Recorded, Entered, Chronological, Slots, Good, Gots, Breaks, InRange;
    left := w.SyncArchives(PRIMARY, entries);
    synced, between := w.rows, w.versions;
    ghost var whole := w.Valid();
    var order := Outstanding(w.rows);
    NoTurnTaken(synced, between, order, listings, cancel);
    var t := 0;
    while t < |order| && !SeenCancelled(cancel, t)
      invariant 0 <= t <= |order| && |w.rows| == |synced| && (whole ==> w.Valid())
      invariant forall i :: 0 <= i < |synced| ==> w.rows[i].name == synced[i].name
      invariant BrowsableUpTo(synced, order, listings, cancel, t, w.rows)
      invariant whole ==> ReadUpTo(synced, between, order, listings, cancel, t, w.rows, w.versions)
      invariant forall u :: 0 <= u < t ==> !SeenCancelled(cancel, u)
    {
      assert order[t] in order;
      var name := w.rows[order[t] - 1].name;
      ghost var midRows, mid := w.rows, w.versions;
      var verdict := IngestOne(w, order[t], if name in listings then Some(listings[name]) else None);
      TurnBrowsable(synced, order, listings, cancel, t, order[t], midRows, w.rows);
      if whole {
        TurnTaken(synced, between, order, listings, cancel, t, order[t], midRows, mid, w.rows, w.versions);
      }
      t := t + 1;
    }
    RestNotRead(synced, between, order, listings, cancel, t, w.rows, w.versions);
  }

  lemma RestNotRead(rows: seq<Row>, versions: set<Version>, order: seq<nat>, listings: map<string, seq<Event>>,
                    cancel: Option<nat>, t: nat, afterRows: seq<Row>, after: set<Version>)
    requires t <= |order| && (t == |order| || SeenCancelled(cancel, t))
    requires BrowsableUpTo(rows, order, listings, cancel, t, afterRows)
    ensures BrowsableUpTo(rows, order, listings, cancel, |order|, afterRows)
    ensures ReadUpTo(rows, versions, order, listings, cancel, t, afterRows, after) ==>
              ReadUpTo(rows, versions, order, listings, cancel, |order|, afterRows, after)
  {
    hide Told, InRange, Says, Gots, Good, Breaks;
    forall i | 0 <= i < |rows|
      ensures ReadBy(rows, order, listings, cancel, |order|, i) <==> ReadBy(rows, order, listings, cancel, t, i)
    {
    }
  }

  /** Every archive is browsable, and shows what it truly holds. */
  ghost predicate CaughtUp(s: State)
    requires Inv(s)
  {
    TellsTruth(s) && forall i :: 0 <= i < |s.rows| ==> !s.rows[i].pending
  }

  ghost predicate ListsTruly(s: State, listings: map<string, seq<Event>>) {
    forall name :: name in listings && name in s.written ==> Lists(listings[name], s.written[name].items)
  }

  /** Every outstanding archive is read in its turn, and nothing was shown of it
      beforehand that it does not hold. */
  ghost predicate AllTurnOut(s: State, listings: map<string, seq<Event>>, cancel: Option<nat>)
    requires Inv(s)
  {
    var order := Outstanding(s.rows);
    forall i :: 0 <= i < |s.rows| && s.rows[i].pending ==>
      ReadBy(s.rows, order, listings, cancel, |order|, i) && Shown(s.versions, i + 1) <= TrulyIn(s, i)
  }

  lemma ReadAddsTruth(s: State, order: seq<nat>, listings: map<string, seq<Event>>, cancel: Option<nat>, i: nat)
    requires Inv(s) && ListsTruly(s, listings) && i < |s.rows| && ReadBy(s.rows, order, listings, cancel, |order|, i)
    ensures s.rows[i].name in listings && Says(Gots(Good(listings[s.rows[i].name]))) == TrulyIn(s, i)
  {
    hide InRange, Says, Gots, NothingTwice, Sent, SeenCancelled;
    var t :| 0 <= t < |order| && order[t] == i + 1 && IsRead(listings, cancel, t, s.rows[i].name);
    ItemsAreContents(s.written[s.rows[i].name].items);
  }

  lemma RowTurnsOutIff(s: State, order: seq<nat>, listings: map<string, seq<Event>>, cancel: Option<nat>,
                       afterRows: seq<Row>, after: set<Version>, i: nat)
    requires Inv(s) && ListsTruly(s, listings) && i < |s.rows| && TellsTruth(s)
    requires ReadUpTo(s.rows, s.versions, order, listings, cancel, |order|, afterRows, after)
    requires ReadBy(s.rows, order, listings, cancel, |order|, i) ==> s.rows[i].pending
    ensures |afterRows| == |s.rows|
    ensures !afterRows[i].pending && Shown(after, i + 1) == TrulyIn(s, i) <==>
            (s.rows[i].pending ==>
               ReadBy(s.rows, order, listings, cancel, |order|, i) && Shown(s.versions, i + 1) <= TrulyIn(s, i))
  {
    assert Told(after, |s.rows|)[i] ==
           Told(s.versions, |s.rows|)[i] + Adds(s.rows, order, listings, cancel, |order|, i);
    if ReadBy(s.rows, order, listings, cancel, |order|, i) {
      ReadAddsTruth(s, order, listings, cancel, i);
    }
    hide Lists, Says, Gots, Good, TrulyIn, Shown, InRange, ReadBy;
  }

  /** Catching up comes to the repository's archives, each browsable and showing
      what it truly holds, if and only if every outstanding listing reads, in
      time, and nothing is shown beforehand of an outstanding archive that it
      does not hold. */
  lemma CaughtUpIff(s: State, entries: seq<Meta>, left: set<Version>, listings: map<string, seq<Event>>,
                    cancel: Option<nat>, afterRows: seq<Row>, after: set<Version>)
    requires Inv(s) && InTime(s) && TellsTruth(s) && CanSync(s, entries, left) && ListsTruly(s, listings)
    requires var next := Synced(s, entries, left);
             var order := Outstanding(next.rows);
             ReadUpTo(next.rows, next.versions, order, listings, cancel, |order|, afterRows, after)
    ensures var next := Synced(s, entries, left);
            var end := next.(rows := afterRows, versions := after);
            && Inv(next) && Inv(end)
            && (CaughtUp(end) <==> AllTurnOut(next, listings, cancel))
            && (forall name :: Recorded(end.rows, PRIMARY, name) <==> name in s.repo)
  {
    var next := Synced(s, entries, left);
    var end := next.(rows := afterRows, versions := after);
    SyncKeepsInv(s, entries, left);
    assert next.reading.Idle? && next.written == s.written;
    assert ListsTruly(next, listings);
    forall name
      ensures Recorded(next.rows, PRIMARY, name) <==> name in s.repo
    {
      SyncedNames(s, entries, left, name);
    }
    hide Synced, Inv, InTime, TellsTruth, CanSync, ListsTruly, ReadUpTo, CaughtUp, AllTurnOut, Recorded;
    EndKeepsInv(next, Outstanding(next.rows), listings, cancel, afterRows, after);
    CaughtUpByRows(next, listings, cancel, afterRows, after);
    forall name
      ensures Recorded(end.rows, PRIMARY, name) <==> Recorded(next.rows, PRIMARY, name)
    {
      SameNames(next.rows, afterRows, name);
    }
  }

  lemma EndKeepsInv(s: State, order: seq<nat>, listings: map<string, seq<Event>>, cancel: Option<nat>,
                    afterRows: seq<Row>, after: set<Version>)
    requires Inv(s) && s.reading.Idle? &&
             ReadUpTo(s.rows, s.versions, order, listings, cancel, |order|, afterRows, after)
    ensures Inv(s.(rows := afterRows, versions := after))
    ensures |afterRows| == |s.rows|
    ensures forall i :: 0 <= i < |afterRows| ==> afterRows[i].(pending := false) == s.rows[i].(pending := false)
  {
    hide ReadBy, Told, Adds, InRange, NothingTwice;
  }

  lemma SameNames(rows: seq<Row>, after: seq<Row>, name: string)
    requires |after| == |rows| && forall i :: 0 <= i < |rows| ==>
               after[i].(pending := false) == rows[i].(pending := false)
    ensures Recorded(after, PRIMARY, name) <==> Recorded(rows, PRIMARY, name)
  {
    forall i | 0 <= i < |rows|
      ensures after[i].name == rows[i].name && after[i].repo == rows[i].repo
    {
    }
  }

  lemma OutstandingWait(rows: seq<Row>, listings: map<string, seq<Event>>, cancel: Option<nat>, i: nat)
    requires i < |rows| && ReadBy(rows, Outstanding(rows), listings, cancel, |Outstanding(rows)|, i)
    ensures rows[i].pending
  {
    hide IsRead;
    assert i + 1 in Outstanding(rows);
  }

  lemma CaughtUpByRows(s: State, listings: map<string, seq<Event>>, cancel: Option<nat>, afterRows: seq<Row>,
                       after: set<Version>)
    requires Inv(s) && TellsTruth(s) && ListsTruly(s, listings) && Inv(s.(rows := afterRows, versions := after))
    requires ReadUpTo(s.rows, s.versions, Outstanding(s.rows), listings, cancel, |Outstanding(s.rows)|, afterRows,
                      after)
    requires |afterRows| == |s.rows|
    requires forall i :: 0 <= i < |afterRows| ==> afterRows[i].(pending := false) == s.rows[i].(pending := false)
    ensures CaughtUp(s.(rows := afterRows, versions := after)) <==> AllTurnOut(s, listings, cancel)
  {
    var order := Outstanding(s.rows);
    var end := s.(rows := afterRows, versions := after);
    hide ReadUpTo, ReadBy, Shown, InRange, Contents, Pairs, ListsTruly, NothingTwice;
    forall i | 0 <= i < |s.rows|
      ensures afterRows[i].name == s.rows[i].name
      ensures !afterRows[i].pending && Shown(after, i + 1) == TrulyIn(s, i) <==>
              (s.rows[i].pending ==>
                 ReadBy(s.rows, order, listings, cancel, |order|, i) && Shown(s.versions, i + 1) <= TrulyIn(s, i))
    {
      assert afterRows[i].(pending := false) == s.rows[i].(pending := false);
      if ReadBy(s.rows, order, listings, cancel, |order|, i) {
        OutstandingWait(s.rows, listings, cancel, i);
      }
      RowTurnsOutIff(s, order, listings, cancel, afterRows, after, i);
    }
  }

  lemma SyncedNames(s: State, entries: seq<Meta>, left: set<Version>, name: string)
    requires Inv(s) && InTime(s) && CanSync(s, entries, left)
    ensures Recorded(Synced(s, entries, left).rows, PRIMARY, name) <==> name in s.repo
  {
    NamesAgree(s.rows, PRIMARY, entries, PRIMARY, name);
    StackedNames(Stayed(s.rows, entries), Unknown(s.rows, entries), PRIMARY, PRIMARY, name);
    hide Slotted, RemovedTo, Order, Surviving, InRange;
  }

  /** From a sound catalogue and a careful sync, nothing is: so it comes to that
      if and only if every outstanding listing reads, in time. */
  lemma CaughtUpSoundlyIff(s: State, entries: seq<Meta>, left: set<Version>, listings: map<string, seq<Event>>,
                           cancel: Option<nat>, afterRows: seq<Row>, after: set<Version>)
    requires Inv(s) && Sound(s) && CanSync(s, entries, left) && Careful(s, Sync(entries, left)) &&
             ListsTruly(s, listings)
    requires var next := Synced(s, entries, left);
             var order := Outstanding(next.rows);
             ReadUpTo(next.rows, next.versions, order, listings, cancel, |order|, afterRows, after)
    ensures var next := Synced(s, entries, left);
            var order := Outstanding(next.rows);
            var end := next.(rows := afterRows, versions := after);
            && Inv(end)
            && (CaughtUp(end) <==>
                  forall i :: 0 <= i < |next.rows| && next.rows[i].pending ==>
                    ReadBy(next.rows, order, listings, cancel, |order|, i))
  {
    SoundTellsTruth(s);
    SoundIs(s);
    SyncSoundlyIff(s, entries, left);
    CaughtUpIff(s, entries, left, listings, cancel, afterRows, after);
    var next := Synced(s, entries, left);
    hide Inv, Sound, CanSync, Careful, ListsTruly, Synced, ReadUpTo, TellsTruth, Shown, TrulyIn, CaughtUp, ReadBy;
    SoundTellsTruth(next);
  }
}
