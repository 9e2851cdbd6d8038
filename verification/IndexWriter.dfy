/** The sole writer onto the catalogue
    (crates/backtrack-core/src/index/writer.rs). */
module IndexWriter {
  import opened Text
  import opened Index
  import opened IndexRemove
  import opened IndexSync
  import opened IndexOrder
  import opened Sorting

  /** An item of a listing, or the word that the listing was cut short. */
  datatype Read = Got(path: int, content: Content) | Cut

  /** What a listing says of the files it does not mention: that they were
      gone; that they had not changed; or the one inside the folders it covers,
      whose paths are `covered`, and nothing at all outside them. */
  datatype Kind = Full | Delta | Scoped(covered: set<int>)

  predicate Whole(items: seq<Read>) {
    forall i :: 0 <= i < |items| ==> items[i].Got?
  }

  /** No path is listed twice. */
  ghost predicate Once(items: seq<Read>) {
    forall i, j :: 0 <= i < j < |items| && items[i].Got? && items[j].Got? ==> items[i].path != items[j].path
  }

  function Listed(items: seq<Read>): (listing: Listing)
    requires Whole(items)
  {
    if items == [] then map[]
    else
      var n := |items| - 1;
      Listed(items[..n])[items[n].path := items[n].content]
  }

  lemma {:induction false} ListedHolds(items: seq<Read>, path: int)
    requires Whole(items)
    ensures path in Listed(items) <==> exists i :: 0 <= i < |items| && items[i].path == path
  {
    if items != [] {
      var n := |items| - 1;
      ListedHolds(items[..n], path);
      assert items[n].path == path ==> path in Listed(items);
      if i :| 0 <= i < |items[..n]| && items[..n][i].path == path {
        assert items[i].path == path;
      }
    }
  }

  /** Each path once, a listing's items are what it comes to. */
  lemma OnceIsListed(items: seq<Read>)
    requires Whole(items) && Once(items)
    ensures Says(items) == Pairs(Listed(items))
  {
    forall h
      ensures h in Says(items) <==> h in Pairs(Listed(items))
    {
      ListedHolds(items, h.path);
      if i :| 0 <= i < |items| && items[i].path == h.path {
        ListedAs(items, i);
        assert h in Says(items) ==> h == Held(items[i].path, items[i].content);
      }
    }
  }

  lemma {:induction false} ListedAs(items: seq<Read>, i: nat)
    requires Whole(items) && Once(items) && i < |items|
    ensures items[i].path in Listed(items) && Listed(items)[items[i].path] == items[i].content
  {
    var n := |items| - 1;
    if i < n {
      ListedAs(items[..n], i);
    }
  }

  /** What the items of a listing say was held. */
  function Says(items: seq<Read>): set<Held>
    requires Whole(items)
  {
    set i | 0 <= i < |items| :: Held(items[i].path, items[i].content)
  }

  function Mentioned(items: seq<Read>): set<int>
    requires Whole(items)
  {
    set i | 0 <= i < |items| :: items[i].path
  }

  /** What a listing leaves as it was in the archive before. */
  function Over(before: set<Held>, items: seq<Read>, kind: Kind): set<Held>
    requires Whole(items)
  {
    match kind
    case Full => {}
    case Delta => Unspoken(before, Mentioned(items))
    case Scoped(covered) => Unspoken(before, covered)
  }

  /** What is shown of every archive once a listing is read in: of its own, what
      was shown already, what is listed, and what the listing leaves as it was. */
  function ReadOver(told: seq<set<Held>>, s: int, items: seq<Read>, kind: Kind): seq<set<Held>>
    requires 1 <= s <= |told| && Whole(items)
  {
    told[s - 1 := told[s - 1] + Says(items) + Over(if s == 1 then {} else told[s - 2], items, kind)]
  }

  /** What an archive is taken to have held, once its listing is read. */
  function Outcome(history: seq<Listing>, s: int, items: seq<Read>, kind: Kind): seq<Listing>
    requires 1 <= s <= |history| && Whole(items)
  {
    var listed := history[s - 1 := Listed(items)];
    match kind
    case Full => listed
    case Delta => CarriedInto(listed, s, Listed(items).Keys)
    case Scoped(covered) => CarriedInto(listed, s, covered)
  }

  /** A listing that names each path once; of the newest archive if it is a
      delta, and of nothing but what it covers if it is scoped. */
  ghost predicate Fits(items: seq<Read>, kind: Kind, s: int, n: nat) {
    && Whole(items) && Once(items)
    && (kind.Delta? ==> s == n)
    && (kind.Scoped? ==> forall i :: 0 <= i < |items| ==> items[i].path in kind.covered)
  }

  /** What reading the items of a listing in may leave: they are shown of the
      archive besides what was, and rows of paths it does not mention stay. */
  ghost predicate ItemsTo(versions: set<Version>, n: nat, s: int, items: seq<Read>, after: set<Version>)
    requires Whole(items)
  {
    && InRange(after, n)
    && (forall t :: Shown(after, t) == Shown(versions, t) + if t == s then Says(items) else {})
    && (forall v: Version :: v.path !in Mentioned(items) ==> (v in after <==> v in versions))
  }

  /** What carrying every row a scoped listing does not speak for may leave. */
  ghost predicate CarriedTo(versions: set<Version>, s: int, covered: set<int>, after: set<Version>) {
    exists pick :: Picks(versions, s, covered, pick) && after == Carry(versions, s, covered, pick)
  }

  ghost predicate ScopedTo(versions: set<Version>, n: nat, s: int, items: seq<Read>, covered: set<int>,
                           after: set<Version>)
    requires Whole(items)
  {
    exists mid :: ItemsTo(versions, n, s, items, mid) && CarriedTo(mid, s, covered, after)
  }

  /** What reading a listing in may leave. Whatever the rows were, exactly what
      it says is shown besides, unless it is scoped, when carrying may lose
      something of later archives; and rows that encoded a history in which
      nothing was known of the archive encode the history with it. */
  ghost predicate ReadTo(versions: set<Version>, n: nat, s: int, items: seq<Read>, kind: Kind, after: set<Version>)
    requires 1 <= s <= n && Whole(items)
  {
    && InRange(after, n)
    && (!kind.Scoped? ==> Told(after, n) == ReadOver(Told(versions, n), s, items, kind))
    && (kind.Scoped? ==> ScopedTo(versions, n, s, items, kind.covered, after))
    && (forall history ::
          |history| == n && Encodes(versions, history) && history[s - 1] == map[] && Fits(items, kind, s, n) ==>
          Encodes(after, Outcome(history, s, items, kind)))
  }

  /** What removing archives may leave. */
  ghost predicate RemovedTo(versions: set<Version>, keep: seq<bool>, left: set<Version>) {
    && InRange(left, Rank(keep, |keep|))
    && Told(left, Rank(keep, |keep|)) == Surviving(Told(versions, |keep|), keep)
    && ((forall i :: 0 <= i < |keep| ==> keep[i]) ==> left == versions)
    && (forall history :: |history| == |keep| && Encodes(versions, history) ==> Encodes(left, Surviving(history, keep)))
  }

  /** The rows once there is room for archives the catalogue had not heard of,
      and they are split around each. */
  function Slotted(rows: seq<Row>, versions: set<Version>, missing: seq<Meta>): set<Version>
    requires InRange(versions, |rows|)
  {
    var order := Order(rows, missing);
    SplitTo(MovedBy(order, versions), Known(order), |order|)
  }

  /** The one history that rows encode, if they encode any. */
  lemma TheHistory(versions: set<Version>, n: nat) returns (history: seq<Listing>)
    ensures forall other :: |other| == n && Encodes(versions, other) ==> other == history
    ensures (exists other :: |other| == n && Encodes(versions, other)) ==> |history| == n && Encodes(versions, history)
  {
    history := [];
    if h :| |h| == n && Encodes(versions, h) {
      history := h;
      forall other | |other| == n && Encodes(versions, other)
        ensures other == h
      {
        OneHistory(versions, other, h);
      }
    }
  }

  class Writer {
    var rows: seq<Row>
    var versions: set<Version>

    /** Every row is whole, and says nothing of archives there are not. */
    ghost predicate Valid()
      reads this
    {
      InRange(versions, |rows|)
    }

    /** What is shown of each archive. */
    ghost function Contents(): seq<set<Held>>
      reads this
    {
      Told(versions, |rows|)
    }

    constructor ()
      ensures Valid() && rows == [] && Encodes(versions, [])
    {
      rows, versions := [], {};
      new;
      NothingEncodes();
    }

    /** Record an archive at the end of the catalogue, not yet read. */
    method AppendArchive(meta: Meta, repo: string) returns (s: int)
      modifies this
      ensures s == |rows| && rows == old(rows) + [Row(meta.name, meta.ts, repo, true, None)] &&
              versions == old(versions)
      ensures old(Valid()) ==> Valid() && Contents() == old(Contents()) + [{}]
      ensures forall history :: old(Encodes(versions, history)) ==> Encodes(versions, history + [map[]])
    {
      forall history | Encodes(versions, history)
        ensures Encodes(versions, history + [map[]])
      {
        AppendEncodes(versions, history);
      }
      if Valid() {
        NoneAfterLast(versions, |rows|);
      }
      rows := rows + [Row(meta.name, meta.ts, repo, true, None)];
      s := |rows|;
    }

    /** Read one archive's listing in: all of it, or nothing. */
    method Ingest(s: int, items: seq<Read>, kind: Kind) returns (ok: bool)
      requires 1 <= s <= |rows|
      modifies this
      ensures old(Valid()) ==> Valid()
      ensures ok <==> Whole(items)
      ensures !ok ==> rows == old(rows) && versions == old(versions)
      ensures ok ==> rows == old(rows)[s - 1 := old(rows)[s - 1].(pending := false)]
      ensures ok && old(Valid()) ==> ReadTo(old(versions), |rows|, s, items, kind, versions)
    {
      hide InRange, ReadingTo, ReadTo, Carry, Reach, Picks, LeftFound, RightFound, Joined, Only, Encodes;
      var now := versions;
      ghost var history := TheHistory(versions, |rows|);
      var i := 0;
      if Valid() {
        StartsReading(versions, |rows|, s, items, history);
      }
      while i < |items|
        invariant rows == old(rows) && versions == old(versions)
        invariant 0 <= i <= |items| && Whole(items[..i])
        invariant Valid() ==> ReadingTo(versions, |rows|, s, items, i, history, now)
      {
        if items[i].Cut? {
          return false;
        }
        var path, content := items[i].path, items[i].content;
        var left := LeftOf(now, path, s, content);
        var right := RightOf(now, path, s, content);
        if Valid() {
          ReadsOne(versions, |rows|, s, items, i, history, now, left, right);
        }
        now := now - Only(left) - Only(right) + {Joined(path, s, content, left, right)};
        i := i + 1;
      }
      assert items[..|items|] == items;
      ghost var before := now;
      match kind {
        case Full =>
        case Delta =>
          now := Reach(now, s, set k | 0 <= k < |items| :: items[k].path);
        case Scoped(covered) =>
          var pick := Joins(now, s, covered);
          now := Carry(now, s, covered, pick);
      }
      if Valid() {
        ReadsAll(versions, |rows|, s, items, kind, history, before, now);
      }
      versions := now;
      rows := rows[s - 1 := rows[s - 1].(pending := false)];
      ok := true;
    }

    /** Remove the archives not in `keep`, as if they had never been read. */
    method Remove(keep: seq<bool>)
      requires Valid() && |keep| == |rows|
      modifies this
      ensures Valid() && rows == Surviving(old(rows), keep) && RemovedTo(old(versions), keep, versions)
      ensures Contents() == Surviving(old(Contents()), keep)
    {
      if forall i :: 0 <= i < |keep| ==> keep[i] {
        AllSurvive(rows, keep);
        AllSurvive(Told(versions, |rows|), keep);
        forall history: seq<Listing> | |history| == |keep|
          ensures Surviving(history, keep) == history
        {
          AllSurvive(history, keep);
        }
        return;
      }
      ghost var history := TheHistory(versions, |rows|);
      versions := RemoveArchives(versions, keep, history);
      rows := Surviving(rows, keep);
    }

    /** Mark every local archive not marked yet as one that may be discarded from
        `at`: a backup has reached the real destination. */
    method MarkExpirable(at: int)
      modifies this`rows
      ensures rows == Marked(old(rows), at)
    {
      rows := Marked(rows, at);
    }

    /** Make room for archives the catalogue has not heard of, and split around
        each. */
    method Slot(missing: seq<Meta>, repo: string)
      requires Valid()
      modifies this
      ensures rows == Stack(Order(old(rows), missing), repo) && Chronological(Slots(rows))
      ensures InTime(rows) && StackedFrom(old(rows), missing, repo, rows)
      ensures versions == Slotted(old(rows), old(versions), missing)
    {
      hide InTime, StackedFrom, Chronological;
      var order := Order(rows, missing);
      ghost var moved := MovedBy(order, versions);
      versions := MovedBy(order, versions);
      var s := 0;
      while s < |order|
        invariant s <= |order|
        invariant versions == SplitTo(moved, Known(order), s)
        invariant rows == old(rows)
      {
        s := s + 1;
        if order[s - 1].Newcomer? {
          versions := SplitAround(versions, s);
        }
      }
      RestackedSorted(rows, missing, repo);
      RestackedFrom(rows, missing, repo);
      rows := Stack(order, repo);
      ChronologicalIsInTime(rows);
    }

    /** Make the archives of one store those its repository lists. `left` is
        what removing the others left. */
    method SyncArchives(repo: string, entries: seq<Meta>) returns (ghost left: set<Version>)
      requires Valid()
      modifies this
      ensures Matched(old(rows), old(versions), repo, entries, left, rows, versions)
      ensures forall other, name :: Recorded(rows, other, name) <==>
                if other == repo then Entered(entries, name) else old(Recorded(rows, other, name))
      ensures old(Chronological(Slots(rows))) ==> Valid() && Chronological(Slots(rows))
    {
      hide InRange, Chronological, Slots, RemovedTo, Surviving, Recorded, Missing, Wanted;
      var keep := Wanted(rows, repo, entries);
      ghost var before := rows;
      Remove(keep);
      left := versions;
      var missing := Missing(rows, repo, entries);
      forall other, name
        ensures (Recorded(rows, other, name) || (other == repo && Entered(missing, name))) <==>
                if other == repo then Entered(entries, name) else Recorded(before, other, name)
      {
        NamesAgree(before, repo, entries, other, name);
      }
      if Chronological(Slots(before)) {
        KeptSorted(before, keep);
        SlottedInRange(rows, versions, missing);
      }
      if missing != [] {
        ghost var kept := rows;
        Slot(missing, repo);
        forall other, name
          ensures Recorded(rows, other, name) <==>
                  Recorded(kept, other, name) || (other == repo && Entered(missing, name))
        {
          StackedNames(kept, missing, repo, other, name);
        }
      }
    }
  }

  /** What matching a store's archives to its repository leaves: the archives it
      lists no more removed, and those the catalogue had not heard of slotted in. */
  ghost predicate Matched(rows: seq<Row>, versions: set<Version>, repo: string, entries: seq<Meta>, left: set<Version>,
                          afterRows: seq<Row>, after: set<Version>)
  {
    var keep := Wanted(rows, repo, entries);
    var kept := Surviving(rows, keep);
    var missing := Missing(kept, repo, entries);
    && RemovedTo(versions, keep, left)
    && if missing == [] then afterRows == kept && after == left
       else afterRows == Stack(Order(kept, missing), repo) && after == Slotted(kept, left, missing)
  }

  // ---- Reading in, item by item ----

  /** What the rows are once the first `i` items are read in. */
  ghost predicate ReadingTo(versions: set<Version>, n: nat, s: int, items: seq<Read>, i: nat, history: seq<Listing>,
                            now: set<Version>)
    requires i <= |items| && Whole(items[..i])
  {
    && InRange(now, n)
    && (forall t :: Shown(now, t) == Shown(versions, t) + if t == s then Says(items[..i]) else {})
    && (forall v: Version :: v.path !in Mentioned(items[..i]) ==> (v in now <==> v in versions))
    && (Unread(versions, n, s, history) && Once(items) ==> Encodes(now, history[s - 1 := Listed(items[..i])]))
  }

  /** The rows encode a history in which nothing is known of the archive. */
  ghost predicate Unread(versions: set<Version>, n: nat, s: int, history: seq<Listing>) {
    |history| == n && Encodes(versions, history) && 1 <= s <= n && history[s - 1] == map[]
  }

  lemma StartsReading(versions: set<Version>, n: nat, s: int, items: seq<Read>, history: seq<Listing>)
    requires InRange(versions, n)
    ensures ReadingTo(versions, n, s, items, 0, history, versions)
  {
    assert items[..0] == [];
    if Unread(versions, n, s, history) {
      assert history[s - 1 := map[]] == history;
    }
  }

  lemma ReadsOne(versions: set<Version>, n: nat, s: int, items: seq<Read>, i: nat, history: seq<Listing>,
                 now: set<Version>, left: Option<Version>, right: Option<Version>)
    requires 1 <= s <= n && i < |items| && Whole(items[..i]) && items[i].Got?
    requires ReadingTo(versions, n, s, items, i, history, now)
    requires LeftFound(now, items[i].path, s - 1, items[i].content, left)
    requires RightFound(now, items[i].path, s + 1, items[i].content, right)
    ensures Whole(items[..i + 1])
    ensures ReadingTo(versions, n, s, items, i + 1, history,
                      now - Only(left) - Only(right) + {Joined(items[i].path, s, items[i].content, left, right)})
  {
    hide InRange, Shown, Encodes, Says, Joined, Only, Listed, Mentioned, LeftFound, RightFound, Once;
    var path, content := items[i].path, items[i].content;
    var after := now - Only(left) - Only(right) + {Joined(path, s, content, left, right)};
    assert items[..i + 1] == items[..i] + [items[i]];
    OneMoreItem(items, i);
    OneOfThePath(now, s, path, content, left, right);
    forall t
      ensures InRange(after, n)
      ensures Shown(after, t) == Shown(versions, t) + if t == s then Says(items[..i + 1]) else {}
    {
      OneShown(now, n, s, path, content, left, right, t);
      if t == s {
        assert Shown(versions, t) + Says(items[..i]) + {Held(path, content)} ==
               Shown(versions, t) + Says(items[..i + 1]);
      }
    }
    OneShown(now, n, s, path, content, left, right, s);
    if Unread(versions, n, s, history) && Once(items) {
      OneEncoded(now, history, s, items, i, left, right);
    }
  }

  lemma OneShown(now: set<Version>, n: nat, s: int, path: int, content: Content, left: Option<Version>,
                 right: Option<Version>, t: int)
    requires InRange(now, n) && 1 <= s <= n
    requires LeftFound(now, path, s - 1, content, left) && RightFound(now, path, s + 1, content, right)
    ensures var after := now - Only(left) - Only(right) + {Joined(path, s, content, left, right)};
            InRange(after, n) && Shown(after, t) == Shown(now, t) + if t == s then {Held(path, content)} else {}
  {
    hide InRange, Shown, Joined, Only;
    ItemShows(now, n, s, path, content, left, right, t);
  }

  /** Only rows of its path change. */
  lemma OneOfThePath(now: set<Version>, s: int, path: int, content: Content, left: Option<Version>,
                     right: Option<Version>)
    requires LeftFound(now, path, s - 1, content, left) && RightFound(now, path, s + 1, content, right)
    ensures var after := now - Only(left) - Only(right) + {Joined(path, s, content, left, right)};
            forall v: Version :: v.path != path ==> (v in after <==> v in now)
  {
  }

  lemma OneEncoded(now: set<Version>, history: seq<Listing>, s: int, items: seq<Read>, i: nat, left: Option<Version>,
                   right: Option<Version>)
    requires 1 <= s <= |history| && i < |items| && Whole(items[..i + 1]) && Once(items)
    requires Encodes(now, history[s - 1 := Listed(items[..i])])
    requires LeftFound(now, items[i].path, s - 1, items[i].content, left)
    requires RightFound(now, items[i].path, s + 1, items[i].content, right)
    ensures Encodes(now - Only(left) - Only(right) + {Joined(items[i].path, s, items[i].content, left, right)},
                    history[s - 1 := Listed(items[..i + 1])])
  {
    hide Encodes, Joined, Only, Listed, LeftFound, RightFound;
    var path, content := items[i].path, items[i].content;
    var held := history[s - 1 := Listed(items[..i])];
    assert items[..i + 1][..i] == items[..i];
    ListedHolds(items[..i], path);
    OneOfAPath(now, held, s, path, content, left, right);
    ItemEncodes(now, held, s, path, content, left, right);
    NextListed(items, i);
    assert held[s - 1 := held[s - 1][path := content]] == history[s - 1 := Listed(items[..i + 1])];
  }

  lemma OneMoreItem(items: seq<Read>, i: nat)
    requires i < |items| && Whole(items[..i + 1])
    ensures Whole(items[..i]) && Says(items[..i + 1]) == Says(items[..i]) + {Held(items[i].path, items[i].content)}
    ensures Mentioned(items[..i + 1]) == Mentioned(items[..i]) + {items[i].path}
  {
    var some, more := items[..i], items[..i + 1];
    assert more == some + [items[i]];
    forall h
      ensures h in Says(more) <==> h in Says(some) + {Held(items[i].path, items[i].content)}
    {
      if k :| 0 <= k < |some| && h == Held(some[k].path, some[k].content) {
        assert more[k] == some[k];
      }
      assert more[i] == items[i];
    }
  }

  lemma NextListed(items: seq<Read>, i: nat)
    requires i < |items| && Whole(items[..i + 1])
    ensures Whole(items[..i]) && Listed(items[..i + 1]) == Listed(items[..i])[items[i].path := items[i].content]
  {
    assert items[..i + 1][..i] == items[..i];
  }

  /** What the rows may be once the files a listing does not mention are dealt
      with. */
  ghost predicate FinishedTo(now: set<Version>, s: int, items: seq<Read>, kind: Kind, after: set<Version>)
    requires Whole(items)
  {
    match kind
    case Full => after == now
    case Delta => after == Reach(now, s, Mentioned(items))
    case Scoped(covered) => CarriedTo(now, s, covered, after)
  }

  lemma ReadsAll(versions: set<Version>, n: nat, s: int, items: seq<Read>, kind: Kind, history: seq<Listing>,
                 now: set<Version>, after: set<Version>)
    requires InRange(versions, n) && 1 <= s <= n && Whole(items[..|items|])
    requires ReadingTo(versions, n, s, items, |items|, history, now)
    requires forall other :: |other| == n && Encodes(versions, other) ==> other == history
    requires items[..|items|] == items && FinishedTo(now, s, items, kind, after)
    ensures InRange(after, n) && ReadTo(versions, n, s, items, kind, after)
  {
    hide InRange, Shown, Encodes, Says, Listed, Mentioned, FinishedTo, CarriedTo, Over, Outcome, ReadOver, Told;
    assert ItemsTo(versions, n, s, items, now);
    ShowsAll(versions, n, s, items, kind, now, after);
    if Unread(versions, n, s, history) && Fits(items, kind, s, n) {
      EncodesAll(now, history, s, items, kind, after);
    }
  }

  lemma ShowsAll(versions: set<Version>, n: nat, s: int, items: seq<Read>, kind: Kind, now: set<Version>,
                 after: set<Version>)
    requires InRange(versions, n) && 1 <= s <= n && Whole(items)
    requires ItemsTo(versions, n, s, items, now) && FinishedTo(now, s, items, kind, after)
    ensures InRange(after, n)
    ensures !kind.Scoped? ==> Told(after, n) == ReadOver(Told(versions, n), s, items, kind)
    ensures kind.Scoped? ==> ScopedTo(versions, n, s, items, kind.covered, after)
  {
    hide InRange, Shown, Says, Unspoken, Mentioned, FinishedTo;
    NoneBeforeFirst(versions, n);
    FinishedShows(now, n, s, items, kind, after);
  }

  lemma FinishedShows(now: set<Version>, n: nat, s: int, items: seq<Read>, kind: Kind, after: set<Version>)
    requires InRange(now, n) && 1 <= s <= n && Whole(items) && FinishedTo(now, s, items, kind, after)
    ensures InRange(after, n)
    ensures !kind.Scoped? ==> forall t ::
              Shown(after, t) == Shown(now, t) + if t == s then Over(Shown(now, s - 1), items, kind) else {}
    ensures kind.Scoped? ==> CarriedTo(now, s, kind.covered, after)
  {
    hide InRange, Shown, Reach, Carry, Unspoken, Mentioned, Picks;
    match kind {
      case Full =>
      case Delta =>
        forall t
          ensures InRange(after, n)
          ensures Shown(after, t) == Shown(now, t) + if t == s then Over(Shown(now, s - 1), items, kind) else {}
        {
          ReachShows(now, n, s, Mentioned(items), t);
        }
        ReachShows(now, n, s, Mentioned(items), s);
      case Scoped(covered) =>
        var pick :| Picks(now, s, covered, pick) && after == Carry(now, s, covered, pick);
        CarryShows(now, n, s, covered, pick, s);
    }
  }

  lemma EncodesAll(now: set<Version>, history: seq<Listing>, s: int, items: seq<Read>, kind: Kind, after: set<Version>)
    requires 1 <= s <= |history| && Fits(items, kind, s, |history|) && FinishedTo(now, s, items, kind, after)
    requires Encodes(now, history[s - 1 := Listed(items)])
    ensures Encodes(after, Outcome(history, s, items, kind))
  {
    hide Encodes, FinishedTo, CarriedInto, Listed;
    KindEncodes(now, history[s - 1 := Listed(items)], s, items, kind, after);
  }

  lemma NoneAfterLast(versions: set<Version>, n: nat)
    requires InRange(versions, n)
    ensures Told(versions, n + 1) == Told(versions, n) + [{}]
  {
    assert Shown(versions, n + 1) == {};
  }

  lemma NoneBeforeFirst(versions: set<Version>, n: nat)
    requires InRange(versions, n)
    ensures Shown(versions, 0) == {}
  {
  }

  lemma KindEncodes(now: set<Version>, held: seq<Listing>, s: int, items: seq<Read>, kind: Kind, after: set<Version>)
    requires Encodes(now, held) && 1 <= s <= |held| && Fits(items, kind, s, |held|) && held[s - 1] == Listed(items)
    requires FinishedTo(now, s, items, kind, after)
    ensures Encodes(after,
                    match kind
                    case Full => held
                    case Delta => CarriedInto(held, s, Listed(items).Keys)
                    case Scoped(covered) => CarriedInto(held, s, covered))
  {
    ListedPaths(items);
    hide Encodes, Reach, Carry, CarriedInto, Picks;
    match kind {
      case Full =>
      case Delta =>
        ReachIsCarry(now, held, Mentioned(items));
        CarryEncodes(now, held, s, Mentioned(items), map[]);
      case Scoped(covered) =>
        var pick :| Picks(now, s, covered, pick) && after == Carry(now, s, covered, pick);
        CarryEncodes(now, held, s, covered, pick);
    }
  }

  lemma ListedPaths(items: seq<Read>)
    requires Whole(items)
    ensures Listed(items).Keys == Mentioned(items)
  {
    forall path: int
      ensures path in Listed(items) <==> path in Mentioned(items)
    {
      ListedHolds(items, path);
    }
  }

  // ---- What carrying leaves of the others ----

  /** A scoped listing leaves the archives before as they are, shows its own what
      it says and what the one before shows of everything else, and shows later
      ones nothing new. */
  lemma ScopedShows(versions: set<Version>, n: nat, s: int, items: seq<Read>, covered: set<int>, after: set<Version>,
                    t: int)
    requires InRange(versions, n) && 1 <= s <= n && Whole(items) && ScopedTo(versions, n, s, items, covered, after)
    ensures InRange(after, n)
    ensures t < s ==> Shown(after, t) == Shown(versions, t)
    ensures t == s ==>
              Shown(after, t) == Shown(versions, t) + Says(items) + Unspoken(Shown(versions, s - 1), covered)
    ensures t > s ==> Shown(after, t) <= Shown(versions, t)
  {
    hide InRange, Shown, Says, Unspoken, Picks, Carry, Lost;
    var mid :| ItemsTo(versions, n, s, items, mid) && CarriedTo(mid, s, covered, after);
    var pick :| Picks(mid, s, covered, pick) && after == Carry(mid, s, covered, pick);
    CarryShows(mid, n, s, covered, pick, t);
    assert Shown(mid, s - 1) == Shown(versions, s - 1);
    if t <= s {
      NoneLostBefore(mid, s, covered, pick, t);
    }
  }

  /** Whatever order the store comes to rows in, it is shown of the other archives
      what was, if and only if it is safe to carry the rows over this one. */
  lemma ScopedKeepsIff(versions: set<Version>, n: nat, s: int, items: seq<Read>, covered: set<int>)
    requires InRange(versions, n) && 1 <= s <= n && Whole(items) && Mentioned(items) <= covered
    ensures (forall after :: ScopedTo(versions, n, s, items, covered, after) ==>
               Told(after, n) == ReadOver(Told(versions, n), s, items, Scoped(covered))) <==>
            SafeToCarry(versions, s, covered)
  {
    if SafeToCarry(versions, s, covered) {
      forall after | ScopedTo(versions, n, s, items, covered, after)
        ensures Told(after, n) == ReadOver(Told(versions, n), s, items, Scoped(covered))
      {
        SafeTells(versions, n, s, items, covered, after);
      }
    } else {
      var after := UnsafeLoses(versions, n, s, items, covered);
    }
  }

  lemma SafeTells(versions: set<Version>, n: nat, s: int, items: seq<Read>, covered: set<int>, after: set<Version>)
    requires InRange(versions, n) && 1 <= s <= n && Whole(items) && Mentioned(items) <= covered
    requires ScopedTo(versions, n, s, items, covered, after) && SafeToCarry(versions, s, covered)
    ensures InRange(after, n) && Told(after, n) == ReadOver(Told(versions, n), s, items, Scoped(covered))
  {
    hide InRange, Shown, Says, Unspoken, Mentioned, Picks, Carry, SafeToCarry, Lost;
    var mid :| ItemsTo(versions, n, s, items, mid) && CarriedTo(mid, s, covered, after);
    var pick :| Picks(mid, s, covered, pick) && after == Carry(mid, s, covered, pick);
    SafeByPaths(versions, mid, s, covered);
    NoneBeforeFirst(versions, n);
    assert Shown(mid, s - 1) == Shown(versions, s - 1);
    forall t | 1 <= t <= n
      ensures Shown(after, t) ==
              Shown(versions, t) + if t == s then Says(items) + Unspoken(Shown(versions, s - 1), covered) else {}
    {
      SafeLosesNothing(mid, n, s, covered, pick, t);
      CarryShows(mid, n, s, covered, pick, t);
      assert Shown(mid, t) - {} == Shown(mid, t);
    }
    CarryShows(mid, n, s, covered, pick, s);
    forall i | 0 <= i < n
      ensures Told(after, n)[i] == ReadOver(Told(versions, n), s, items, Scoped(covered))[i]
    {
    }
  }

  /** Only the rows of paths it does not speak for matter. */
  lemma SafeByPaths(a: set<Version>, b: set<Version>, s: int, covered: set<int>)
    requires forall v: Version :: v.path !in covered ==> (v in a <==> v in b)
    ensures SafeToCarry(a, s, covered) <==> SafeToCarry(b, s, covered)
  {
    forall v: Version
      ensures TakenUp(a, s, covered, v) <==> TakenUp(b, s, covered, v)
      ensures TakenUp(a, s, covered, v) ==> v.path !in covered
    {
    }
    hide TakenUp;
    forall h: Held, t | h.path !in covered
      ensures RowStays(a, s, covered, h, t) <==> RowStays(b, s, covered, h, t)
    {
    }
  }

  lemma UnsafeLoses(versions: set<Version>, n: nat, s: int, items: seq<Read>, covered: set<int>)
    returns (after: set<Version>)
    requires InRange(versions, n) && 1 <= s <= n && Whole(items) && Mentioned(items) <= covered
    requires !SafeToCarry(versions, s, covered)
    ensures ScopedTo(versions, n, s, items, covered, after)
    ensures Told(after, n) != ReadOver(Told(versions, n), s, items, Scoped(covered))
  {
    hide Picks, Carry, SafeToCarry, Says, Mentioned;
    var mid := SomeItems(versions, n, s, items);
    SafeByPaths(versions, mid, s, covered);
    CarryKeepsIff(mid, n, s, covered);
    var pick, t :| Picks(mid, s, covered, pick) && !(Shown(mid, t) <= Shown(Carry(mid, s, covered, pick), t));
    after := Carry(mid, s, covered, pick);
    assert CarriedTo(mid, s, covered, after);
    CarryShows(mid, n, s, covered, pick, t);
    if t <= s {
      NoneLostBefore(mid, s, covered, pick, t);
    }
    NoneAfter(mid, n, t);
    var h :| h in Shown(mid, t) && h !in Shown(after, t);
    assert Told(after, n)[t - 1] == Shown(after, t) && h in Told(versions, n)[t - 1];
  }

  lemma NoneAfter(versions: set<Version>, n: nat, t: int)
    requires InRange(versions, n)
    ensures t > n ==> Shown(versions, t) == {}
  {
  }

  /** The items may be read in as rows of their own. */
  lemma SomeItems(versions: set<Version>, n: nat, s: int, items: seq<Read>) returns (mid: set<Version>)
    requires InRange(versions, n) && 1 <= s <= n && Whole(items)
    ensures ItemsTo(versions, n, s, items, mid)
  {
    var own := set i | 0 <= i < |items| :: Version(items[i].path, s, s, items[i].content);
    mid := versions + own;
    forall t, h
      ensures h in Shown(mid, t) <==> h in Shown(versions, t) + if t == s then Says(items) else {}
    {
      if t == s && h in Says(items) {
        var i :| 0 <= i < |items| && h == Held(items[i].path, items[i].content);
        assert Version(items[i].path, s, s, items[i].content) in mid;
      }
    }
  }

  /** Rows that encode a history are safe. */
  lemma EncodedTells(versions: set<Version>, history: seq<Listing>, s: int, items: seq<Read>, covered: set<int>,
                     after: set<Version>)
    requires Encodes(versions, history) && InRange(versions, |history|) && 1 <= s <= |history|
    requires Whole(items) && Mentioned(items) <= covered && ScopedTo(versions, |history|, s, items, covered, after)
    ensures Told(after, |history|) == ReadOver(Told(versions, |history|), s, items, Scoped(covered))
  {
    hide *;
    EncodedIsSafe(versions, history, s, covered);
    SafeTells(versions, |history|, s, items, covered, after);
  }

  /** The row found to end at an archive: any of the path's, if it matches. */
  ghost predicate LeftFound(versions: set<Version>, path: int, s: int, content: Content, left: Option<Version>) {
    match left
    case Some(v) => v in versions && v.path == path && v.last == s && v.content == content
    case None =>
      (forall v :: v in versions && v.path == path ==> v.last != s) ||
      (exists v :: v in versions && v.path == path && v.last == s && v.content != content)
  }

  ghost predicate RightFound(versions: set<Version>, path: int, s: int, content: Content, right: Option<Version>) {
    match right
    case Some(v) => v in versions && v.path == path && v.first == s && v.content == content
    case None =>
      (forall v :: v in versions && v.path == path ==> v.first != s) ||
      (exists v :: v in versions && v.path == path && v.first == s && v.content != content)
  }

  /** Which row each carried one is joined to. */
  method Joins(versions: set<Version>, s: int, covered: set<int>) returns (pick: map<Version, Version>)
    ensures Picks(versions, s, covered, pick)
  {
    var takers := map l | l in versions && Carried(l, s, covered) && (exists r :: r in versions && TakesUp(l, r, s)) ::
      set r | r in versions && TakesUp(l, r, s);
    forall l | l in takers
      ensures takers[l] != {}
    {
      var r :| r in versions && TakesUp(l, r, s);
      assert r in takers[l];
    }
    pick := map[];
    var left := takers.Keys;
    while left != {}
      invariant left <= takers.Keys && pick.Keys == takers.Keys - left
      invariant forall l :: l in pick ==> pick[l] in versions && TakesUp(l, pick[l], s)
      decreases |left|
    {
      var l :| l in left;
      var r :| r in takers[l];
      pick, left := pick[l := r], left - {l};
    }
  }

  /** The row of a path that ends just before an archive, if it matches. */
  method LeftOf(versions: set<Version>, path: int, s: int, content: Content) returns (left: Option<Version>)
    ensures LeftFound(versions, path, s - 1, content, left)
  {
    left := None;
    if v :| v in versions && v.path == path && v.last == s - 1 {
      left := if v.content == content then Some(v) else None;
    }
  }

  /** The row of a path that starts just after an archive, if it matches. */
  method RightOf(versions: set<Version>, path: int, s: int, content: Content) returns (right: Option<Version>)
    ensures RightFound(versions, path, s + 1, content, right)
  {
    right := None;
    if v :| v in versions && v.path == path && v.first == s + 1 {
      right := if v.content == content then Some(v) else None;
    }
  }

  /** In an encoding a path has one row ending, or starting, at an archive. */
  lemma OneOfAPath(versions: set<Version>, history: seq<Listing>, s: int, path: int, content: Content,
                   left: Option<Version>, right: Option<Version>)
    requires Encodes(versions, history)
    requires LeftFound(versions, path, s - 1, content, left) && RightFound(versions, path, s + 1, content, right)
    ensures Ending(versions, path, s - 1, content, left) && Starting(versions, path, s + 1, content, right)
  {
    forall v, w | v in versions && w in versions && v.path == w.path && (v.last == w.last || v.first == w.first)
      ensures v == w
    {
      OneRun(history, v, w, if v.last == w.last then v.last else v.first);
    }
  }

  lemma NothingEncodes()
    ensures Encodes({}, [])
  {
    forall v
      ensures !IsRun([], v)
    {
      assert !Has([], v.first, v.path, v.content);
    }
  }

  lemma AppendEncodes(versions: set<Version>, history: seq<Listing>)
    requires Encodes(versions, history)
    ensures Encodes(versions, history + [map[]])
  {
    var more := history + [map[]];
    assert forall s, p, c :: Has(more, s, p, c) <==> Has(history, s, p, c);
    forall v
      ensures IsRun(more, v) <==> IsRun(history, v)
    {
    }
  }

  // ---- The order archives are read in ----

  predicate Listings(listings: seq<seq<Read>>, turns: seq<nat>, n: nat) {
    && |listings| == n
    && (forall k :: 0 <= k < n ==> Whole(listings[k]))
    && (forall k :: 0 <= k < |turns| ==> turns[k] < n)
  }

  /** What reading full listings in, one after another in the order of `turns`,
      may leave. */
  ghost predicate ReadsIn(versions: set<Version>, n: nat, listings: seq<seq<Read>>, turns: seq<nat>,
                          after: set<Version>)
    requires Listings(listings, turns, n)
    decreases |turns|
  {
    if turns == [] then after == versions
    else exists mid :: LastTurn(versions, n, listings, turns, mid, after)
  }

  ghost predicate LastTurn(versions: set<Version>, n: nat, listings: seq<seq<Read>>, turns: seq<nat>, mid: set<Version>,
                           after: set<Version>)
    requires Listings(listings, turns, n) && turns != []
    decreases |turns|, 0
  {
    var last := |turns| - 1;
    ReadsIn(versions, n, listings, turns[..last], mid) &&
    ReadTo(mid, n, turns[last] + 1, listings[turns[last]], Full, after)
  }

  lemma ReadToShows(versions: set<Version>, n: nat, s: int, items: seq<Read>, after: set<Version>, i: nat)
    requires 1 <= s <= n && Whole(items) && i < n && ReadTo(versions, n, s, items, Full, after)
    ensures InRange(after, n)
    ensures Told(after, n)[i] == Told(versions, n)[i] + if i == s - 1 then Says(items) else {}
  {
  }

  lemma ReadToEncodes(versions: set<Version>, history: seq<Listing>, s: int, items: seq<Read>, kind: Kind,
                      after: set<Version>)
    requires 1 <= s <= |history| && Fits(items, kind, s, |history|) &&
             ReadTo(versions, |history|, s, items, kind, after)
    requires Encodes(versions, history) && history[s - 1] == map[]
    ensures Encodes(after, Outcome(history, s, items, kind))
  {
  }

  lemma {:induction false} ReadsInShow(versions: set<Version>, n: nat, listings: seq<seq<Read>>, turns: seq<nat>,
                                       after: set<Version>, i: nat)
    requires Listings(listings, turns, n) && ReadsIn(versions, n, listings, turns, after) && InRange(versions, n) &&
             i < n
    ensures InRange(after, n)
    ensures Told(after, n)[i] == Told(versions, n)[i] + if i in turns then Says(listings[i]) else {}
    decreases |turns|
  {
    hide InRange, Says, Shown, ReadTo, Told;
    if turns != [] {
      var last := |turns| - 1;
      var mid :| LastTurn(versions, n, listings, turns, mid, after);
      ReadsInShow(versions, n, listings, turns[..last], mid, i);
      ReadToShows(mid, n, turns[last] + 1, listings[turns[last]], after, i);
      assert turns == turns[..last] + [turns[last]];
    }
  }

  /** What the archives are taken to have held, once those of `turns` are read. */
  function AllRead(history: seq<Listing>, listings: seq<seq<Read>>, turns: seq<nat>): (after: seq<Listing>)
    requires |listings| == |history| && forall k :: 0 <= k < |listings| ==> Whole(listings[k])
    ensures |after| == |history|
    ensures forall i :: 0 <= i < |history| ==> after[i] == if i in turns then Listed(listings[i]) else history[i]
  {
    seq(|history|, i requires 0 <= i < |history| => if i in turns then Listed(listings[i]) else history[i])
  }

  /** Each path is listed once, no archive is read twice, and nothing is known
      of those to be read. */
  ghost predicate Afresh(history: seq<Listing>, listings: seq<seq<Read>>, turns: seq<nat>)
    requires Listings(listings, turns, |history|)
  {
    && (forall k :: 0 <= k < |history| ==> Once(listings[k]))
    && (forall i, j :: 0 <= i < j < |turns| ==> turns[i] != turns[j])
    && (forall k :: 0 <= k < |turns| ==> history[turns[k]] == map[])
  }

  lemma {:induction false} ReadsInEncode(versions: set<Version>, history: seq<Listing>, listings: seq<seq<Read>>,
                                         turns: seq<nat>, after: set<Version>)
    requires Listings(listings, turns, |history|) && Afresh(history, listings, turns)
    requires ReadsIn(versions, |history|, listings, turns, after) && Encodes(versions, history)
    ensures Encodes(after, AllRead(history, listings, turns))
    decreases |turns|
  {
    hide *;
    if turns == [] {
      NoTurnsRead(versions, history, listings, after);
    } else {
      var last := |turns| - 1;
      var mid := LastTurnOf(versions, |history|, listings, turns, after);
      OneMoreTurn(history, listings, turns);
      ReadsInEncode(versions, history, listings, turns[..last], mid);
      ReadToEncodes(mid, AllRead(history, listings, turns[..last]), turns[last] + 1,
                    listings[turns[last]], Full, after);
    }
  }

  lemma NoTurnsRead(versions: set<Version>, history: seq<Listing>, listings: seq<seq<Read>>, after: set<Version>)
    requires Listings(listings, [], |history|) && ReadsIn(versions, |history|, listings, [], after)
    ensures after == versions && AllRead(history, listings, []) == history
  {
  }

  lemma LastTurnOf(versions: set<Version>, n: nat, listings: seq<seq<Read>>, turns: seq<nat>, after: set<Version>)
    returns (mid: set<Version>)
    requires Listings(listings, turns, n) && turns != [] && ReadsIn(versions, n, listings, turns, after)
    ensures var last := |turns| - 1;
            && Listings(listings, turns[..last], n) && turns[last] < n && Whole(listings[turns[last]])
            && ReadsIn(versions, n, listings, turns[..last], mid)
            && ReadTo(mid, n, turns[last] + 1, listings[turns[last]], Full, after)
  {
    mid :| LastTurn(versions, n, listings, turns, mid, after);
  }

  lemma OneMoreTurn(history: seq<Listing>, listings: seq<seq<Read>>, turns: seq<nat>)
    requires Listings(listings, turns, |history|) && Afresh(history, listings, turns) && turns != []
    ensures var last := |turns| - 1;
            var sofar := AllRead(history, listings, turns[..last]);
            && Listings(listings, turns[..last], |history|) && Afresh(history, listings, turns[..last])
            && turns[last] < |history| && sofar[turns[last]] == map[]
            && Fits(listings[turns[last]], Full, turns[last] + 1, |history|)
            && Outcome(sofar, turns[last] + 1, listings[turns[last]], Full) == AllRead(history, listings, turns)
  {
    hide Once, Listed;
    assert turns == turns[..|turns| - 1] + [turns[|turns| - 1]];
  }

  /** Newest first, oldest first or a hole at a time: the same archives read in
      any order show the same; and if the rows encoded a history in which nothing
      was known of them, the very same rows are left. */
  lemma AnyOrderSameRows(versions: set<Version>, n: nat, listings: seq<seq<Read>>, first: seq<nat>, second: seq<nat>,
                         a: set<Version>, b: set<Version>, history: seq<Listing>)
    requires InRange(versions, n) && Listings(listings, first, n) && Listings(listings, second, n)
    requires forall k :: k in first <==> k in second
    requires ReadsIn(versions, n, listings, first, a) && ReadsIn(versions, n, listings, second, b)
    ensures Told(a, n) == Told(b, n)
    ensures (|history| == n && Encodes(versions, history) && Afresh(history, listings, first) &&
             Afresh(history, listings, second)) ==> a == b
  {
    hide Encodes, ReadsIn, InRange, Says, Shown, Afresh;
    forall i | 0 <= i < n
      ensures Told(a, n)[i] == Told(b, n)[i]
    {
      ReadsInShow(versions, n, listings, first, a, i);
      ReadsInShow(versions, n, listings, second, b, i);
    }
    if |history| == n && Encodes(versions, history) && Afresh(history, listings, first) &&
       Afresh(history, listings, second) {
      ReadsInEncode(versions, history, listings, first, a);
      ReadsInEncode(versions, history, listings, second, b);
      assert AllRead(history, listings, first) == AllRead(history, listings, second);
      OneEncoding(a, b, AllRead(history, listings, first));
    }
  }

  lemma TakesTurn(versions: set<Version>, n: nat, listings: seq<seq<Read>>, turns: seq<nat>, k: nat, mid: set<Version>,
                  after: set<Version>)
    requires Listings(listings, turns, n) && k < |turns|
    requires Listings(listings, turns[..k], n) && ReadsIn(versions, n, listings, turns[..k], mid)
    requires ReadTo(mid, n, turns[k] + 1, listings[turns[k]], Full, after)
    ensures Listings(listings, turns[..k + 1], n) && ReadsIn(versions, n, listings, turns[..k + 1], after)
  {
    assert turns[..k + 1][..k] == turns[..k];
    assert LastTurn(versions, n, listings, turns[..k + 1], mid, after);
  }

  /** A writer reading listings in, in a given order. */
  method IngestAll(w: Writer, listings: seq<seq<Read>>, turns: seq<nat>)
    requires w.Valid() && Listings(listings, turns, |w.rows|)
    modifies w
    ensures w.Valid() && |w.rows| == old(|w.rows|)
    ensures ReadsIn(old(w.versions), |w.rows|, listings, turns, w.versions)
    ensures forall i :: 0 <= i < |w.rows| ==>
              w.rows[i] == if i in turns then old(w.rows)[i].(pending := false) else old(w.rows)[i]
  {
    hide ReadTo, ReadsIn;
    var k := 0;
    assert turns[..0] == [];
    NoTurns(w.versions, |w.rows|, listings);
    while k < |turns|
      invariant k <= |turns| && w.Valid() && |w.rows| == old(|w.rows|)
      invariant Listings(listings, turns[..k], |w.rows|)
      invariant ReadsIn(old(w.versions), |w.rows|, listings, turns[..k], w.versions)
      invariant forall i :: 0 <= i < |w.rows| ==>
                  w.rows[i] == if i in turns[..k] then old(w.rows)[i].(pending := false) else old(w.rows)[i]
    {
      ghost var before := w.versions;
      var ok := w.Ingest(turns[k] + 1, listings[turns[k]], Full);
      TakesTurn(old(w.versions), |w.rows|, listings, turns, k, before, w.versions);
      assert turns[..k + 1] == turns[..k] + [turns[k]];
      k := k + 1;
    }
    assert turns[..|turns|] == turns;
  }

  lemma NoTurns(versions: set<Version>, n: nat, listings: seq<seq<Read>>)
    requires Listings(listings, [], n)
    ensures ReadsIn(versions, n, listings, [], versions)
  {
  }

  // ---- Matching a repository ----

  predicate Entered(entries: seq<Meta>, name: string) {
    exists i :: 0 <= i < |entries| && entries[i].name == name
  }

  predicate Recorded(rows: seq<Row>, repo: string, name: string) {
    exists i :: 0 <= i < |rows| && rows[i].repo == repo && rows[i].name == name
  }

  /** Which archives stay: the other stores', and those the repository lists. */
  function Wanted(rows: seq<Row>, repo: string, entries: seq<Meta>): (keep: seq<bool>)
    ensures |keep| == |rows|
    ensures forall i :: 0 <= i < |rows| ==> keep[i] == (rows[i].repo != repo || Entered(entries, rows[i].name))
  {
    seq(|rows|, i requires 0 <= i < |rows| => rows[i].repo != repo || Entered(entries, rows[i].name))
  }

  /** Those the catalogue has not heard of. */
  function Missing(rows: seq<Row>, repo: string, entries: seq<Meta>): (missing: seq<Meta>)
    ensures forall m :: m in missing <==> m in entries && !Recorded(rows, repo, m.name)
  {
    if entries == [] then []
    else (if Recorded(rows, repo, entries[0].name) then [] else [entries[0]]) + Missing(rows, repo, entries[1..])
  }

  lemma {:induction false} KeptHolds(rows: seq<Row>, keep: seq<bool>, row: Row)
    requires |rows| == |keep|
    ensures row in Surviving(rows, keep) <==> exists i :: 0 <= i < |rows| && keep[i] && rows[i] == row
    decreases |keep|
  {
    if keep != [] {
      var n := |keep| - 1;
      KeptHolds(rows[..n], keep[..n], row);
      assert rows[..n] + [rows[n]] == rows && keep[..n] + [keep[n]] == keep;
      if i :| 0 <= i < |rows| && keep[i] && rows[i] == row && i < n {
        assert keep[..n][i] && rows[..n][i] == row;
      }
    }
  }

  lemma NamesAgree(rows: seq<Row>, repo: string, entries: seq<Meta>, other: string, name: string)
    ensures var kept := Surviving(rows, Wanted(rows, repo, entries));
            Recorded(kept, other, name) || (other == repo && Entered(Missing(kept, repo, entries), name)) <==>
            if other == repo then Entered(entries, name) else Recorded(rows, other, name)
  {
    var keep := Wanted(rows, repo, entries);
    var kept := Surviving(rows, keep);
    var missing := Missing(kept, repo, entries);
    forall row
      ensures row in kept <==> exists i :: 0 <= i < |rows| && keep[i] && rows[i] == row
    {
      KeptHolds(rows, keep, row);
    }
    if k :| 0 <= k < |kept| && kept[k].repo == other && kept[k].name == name {
      assert kept[k] in kept;
    }
    if other == repo {
      if i :| 0 <= i < |entries| && entries[i].name == name {
        assert entries[i] in missing || Recorded(kept, repo, name);
      }
      if i :| 0 <= i < |missing| && missing[i].name == name {
        assert missing[i] in missing;
      }
    } else if i :| 0 <= i < |rows| && rows[i].repo == other && rows[i].name == name {
      assert keep[i] && rows[i] in kept;
    }
  }

  lemma {:induction false} KeptSorted(rows: seq<Row>, keep: seq<bool>)
    requires |rows| == |keep| && Chronological(Slots(rows))
    ensures Chronological(Slots(Surviving(rows, keep)))
    decreases |keep|
  {
    if keep != [] {
      var n := |keep| - 1;
      forall i, j | 0 <= i < j < n
        ensures !Precedes(Slots(rows[..n])[j], Slots(rows[..n])[i])
      {
        assert !Precedes(Slots(rows)[j], Slots(rows)[i]);
      }
      KeptSorted(rows[..n], keep[..n]);
      var before, after := Slots(Surviving(rows[..n], keep[..n])), Slots(Surviving(rows, keep));
      forall i, j | 0 <= i < j < |after|
        ensures !Precedes(after[j], after[i])
      {
        KeptHolds(rows[..n], keep[..n], Surviving(rows[..n], keep[..n])[i]);
        var k :| 0 <= k < n && rows[..n][k] == Surviving(rows[..n], keep[..n])[i];
        assert !Precedes(Slots(rows)[n], Slots(rows)[k]);
        assert j < |before| ==> !Precedes(before[j], before[i]);
      }
    }
  }

  function Stack(order: seq<Slot>, repo: string): (rows: seq<Row>)
    ensures |rows| == |order| && forall i :: 0 <= i < |order| ==> rows[i] == Restacked(order[i], repo)
  {
    seq(|order|, i requires 0 <= i < |order| => Restacked(order[i], repo))
  }

  lemma OrderMembers(rows: seq<Row>, missing: seq<Meta>, slot: Slot)
    ensures slot in Order(rows, missing) <==> slot in Slots(rows) + Newcomers(missing)
  {
    var all := Slots(rows) + Newcomers(missing);
    PrecedesOrders();
    SortKeeps(Precedes, all, slot);
  }

  /** Earlier archives come before later ones, and those of one moment by name. */
  ghost predicate InTime(rows: seq<Row>) {
    forall i, j :: 0 <= i < j < |rows| ==>
      rows[i].ts < rows[j].ts || (rows[i].ts == rows[j].ts && !Less(rows[j].name, rows[i].name))
  }

  lemma ChronologicalIsInTime(rows: seq<Row>)
    ensures Chronological(Slots(rows)) <==> InTime(rows)
  {
    var slots := Slots(rows);
    forall i, j | 0 <= i < j < |rows|
      ensures !Precedes(slots[j], slots[i]) <==>
              rows[i].ts < rows[j].ts || (rows[i].ts == rows[j].ts && !Less(rows[j].name, rows[i].name))
    {
    }
  }

  /** One row for each of `rows`, with no date to be discarded from, and one for
      each newcomer, still to be read. */
  ghost predicate StackedFrom(rows: seq<Row>, missing: seq<Meta>, repo: string, after: seq<Row>) {
    && |after| == |rows| + |missing|
    && (forall row :: row in rows ==> Row(row.name, row.ts, row.repo, row.pending, None) in after)
    && (forall m :: m in missing ==> Row(m.name, m.ts, repo, true, None) in after)
    && (forall row :: row in after ==>
          || (exists r :: r in rows && row == Row(r.name, r.ts, r.repo, r.pending, None))
          || (exists m :: m in missing && row == Row(m.name, m.ts, repo, true, None)))
  }

  lemma InStack(rows: seq<Row>, missing: seq<Meta>, repo: string, slot: Slot)
    requires slot in Slots(rows) + Newcomers(missing)
    ensures Restacked(slot, repo) in Stack(Order(rows, missing), repo)
  {
    OrderMembers(rows, missing, slot);
    var order := Order(rows, missing);
    var i :| 0 <= i < |order| && order[i] == slot;
    hide Order;
    assert Stack(order, repo)[i] == Restacked(slot, repo);
  }

  lemma FromStack(rows: seq<Row>, missing: seq<Meta>, repo: string, row: Row)
    requires row in Stack(Order(rows, missing), repo)
    ensures (exists r :: r in rows && row == Row(r.name, r.ts, r.repo, r.pending, None)) ||
            (exists m :: m in missing && row == Row(m.name, m.ts, repo, true, None))
  {
    var all, order := Slots(rows) + Newcomers(missing), Order(rows, missing);
    var k :| 0 <= k < |order| && Restacked(order[k], repo) == row;
    OrderMembers(rows, missing, order[k]);
    hide Order;
    var i :| 0 <= i < |all| && all[i] == order[k];
    if i < |rows| {
      assert rows[i] in rows && all[i] == Existing(i, rows[i]);
    } else {
      assert missing[i - |rows|] in missing && all[i] == Newcomer(missing[i - |rows|]);
    }
  }

  lemma RestackedFrom(rows: seq<Row>, missing: seq<Meta>, repo: string)
    ensures StackedFrom(rows, missing, repo, Stack(Order(rows, missing), repo))
  {
    var all, after := Slots(rows) + Newcomers(missing), Stack(Order(rows, missing), repo);
    PrecedesOrders();
    SortSorts(Precedes, all);
    assert |after| == |rows| + |missing|;
    hide Precedes, Sorted, Order;
    forall row | row in rows
      ensures Row(row.name, row.ts, row.repo, row.pending, None) in after
    {
      var i :| 0 <= i < |rows| && rows[i] == row;
      assert all[i] == Existing(i, row);
      InStack(rows, missing, repo, all[i]);
    }
    forall m | m in missing
      ensures Row(m.name, m.ts, repo, true, None) in after
    {
      var i :| 0 <= i < |missing| && missing[i] == m;
      assert all[|rows| + i] == Newcomer(m);
      InStack(rows, missing, repo, all[|rows| + i]);
    }
    forall row | row in after
      ensures (exists r :: r in rows && row == Row(r.name, r.ts, r.repo, r.pending, None)) ||
              (exists m :: m in missing && row == Row(m.name, m.ts, repo, true, None))
    {
      FromStack(rows, missing, repo, row);
    }
  }

  lemma StackedNames(rows: seq<Row>, missing: seq<Meta>, repo: string, other: string, name: string)
    ensures Recorded(Stack(Order(rows, missing), repo), other, name) <==>
            Recorded(rows, other, name) || (other == repo && Entered(missing, name))
  {
    hide Order, Slots, Newcomers;
    var all, order := Slots(rows) + Newcomers(missing), Order(rows, missing);
    var after := Stack(order, repo);
    if k :| 0 <= k < |after| && after[k].repo == other && after[k].name == name {
      OrderMembers(rows, missing, order[k]);
      var i :| 0 <= i < |all| && all[i] == order[k];
      assert i < |rows| ==> rows[i].repo == other && rows[i].name == name;
      assert i >= |rows| ==> other == repo && missing[i - |rows|].name == name;
    }
    if i :| 0 <= i < |rows| && rows[i].repo == other && rows[i].name == name {
      OrderMembers(rows, missing, all[i]);
      var k :| 0 <= k < |order| && order[k] == all[i];
      assert after[k].repo == other && after[k].name == name;
    }
    if i :| other == repo && 0 <= i < |missing| && missing[i].name == name {
      OrderMembers(rows, missing, all[|rows| + i]);
      var k :| 0 <= k < |order| && order[k] == all[|rows| + i];
      assert after[k].repo == other && after[k].name == name;
    }
  }

  // ---- Until when a local archive is kept ----

  predicate IsLocal(repo: string) {
    repo == "spool" || repo == "fs-snapshot"
  }

  function Marked(rows: seq<Row>, at: int): (marked: seq<Row>)
    ensures |marked| == |rows|
    ensures forall i :: 0 <= i < |rows| ==>
              marked[i] ==
              if rows[i].repo in {"spool", "fs-snapshot"} && rows[i].expirable.None?
              then rows[i].(expirable := Some(at)) else rows[i]
  {
    seq(|rows|, i requires 0 <= i < |rows| =>
      if IsLocal(rows[i].repo) && rows[i].expirable.None? then rows[i].(expirable := Some(at)) else rows[i])
  }

  // ---- What is outstanding ----

  const PRIMARY := "primary"
  const SNAPPER := "snapper"

  /** An archive not read yet that a backup's engine can list. */
  predicate Waits(row: Row) {
    row.pending && row.repo != SNAPPER
  }

  /** The numbers of the archives still to be read, newest first. */
  function Outstanding(rows: seq<Row>): (order: seq<nat>)
    ensures forall k :: k in order <==> 1 <= k <= |rows| && rows[k - 1].pending && rows[k - 1].repo != "snapper"
    ensures forall i, j :: 0 <= i < j < |order| ==> order[i] > order[j]
  {
    if rows == [] then []
    else
      var n := |rows| - 1;
      var older := Outstanding(rows[..n]);
      assert forall k :: k in older <==> 1 <= k <= n && Waits(rows[..n][k - 1]);
      assert forall i :: 0 <= i < |older| ==> older[i] in older;
      if Waits(rows[n]) then [n + 1] + older else older
  }

  // ---- Slotting in ----

  /** A row as it is stacked again: the date it may be discarded from is not
      among what is carried over. */
  function Restacked(slot: Slot, repo: string): Row {
    match slot
    case Existing(_, row) => Row(row.name, row.ts, row.repo, row.pending, None)
    case Newcomer(meta) => Row(meta.name, meta.ts, repo, true, None)
  }

  lemma MovedSame(rows: seq<Row>, order: seq<Slot>, v: Version)
    requires OnlyExisting(order) == Slots(rows) && 1 <= v.first <= v.last <= |rows|
    ensures Rank(Known(order), |order|) == |rows|
    ensures Version(v.path, Position(order, v.first - 1) + 1, Position(order, v.last - 1) + 1, v.content) ==
            Moved(v, Known(order))
  {
    hide OnlyExisting, Slots, Position, Known, NewNumber, Rank;
    PositionIsNewNumber(rows, order, v.first);
    PositionIsNewNumber(rows, order, v.last);
  }

  lemma MovedInOrder(rows: seq<Row>, order: seq<Slot>, versions: set<Version>)
    requires OnlyExisting(order) == Slots(rows) && InRange(versions, |rows|)
    ensures Rank(Known(order), |order|) == |rows|
    ensures MovedBy(order, versions) == MovedAll(versions, Known(order))
  {
    assert order[..|order|] == order;
    RankCountsExisting(order, |order|);
    hide *;
    forall v | v in versions
      ensures Version(v.path, Position(order, v.first - 1) + 1, Position(order, v.last - 1) + 1, v.content) ==
              Moved(v, Known(order))
    {
      InRangeAt(versions, |rows|, v);
      MovedSame(rows, order, v);
    }
    MovedAlike(order, versions);
  }

  lemma InRangeAt(versions: set<Version>, n: nat, v: Version)
    requires InRange(versions, n) && v in versions
    ensures 1 <= v.first <= v.last <= n
  {
  }

  lemma MovedAlike(order: seq<Slot>, versions: set<Version>)
    requires InRange(versions, Rank(Known(order), |order|))
    requires forall v :: v in versions ==>
               Version(v.path, Position(order, v.first - 1) + 1, Position(order, v.last - 1) + 1, v.content) ==
               Moved(v, Known(order))
    ensures MovedBy(order, versions) == MovedAll(versions, Known(order))
  {
    hide Position, Known, NewNumber, Rank, Moved;
  }

  lemma RestackedSorted(rows: seq<Row>, missing: seq<Meta>, repo: string)
    ensures var order := Order(rows, missing);
            Chronological(Slots(Stack(order, repo)))
  {
    PrecedesOrders();
    SortSorts(Precedes, Slots(rows) + Newcomers(missing));
    var order := Order(rows, missing);
    var after := Slots(Stack(order, repo));
    forall i, j | 0 <= i < j < |after|
      ensures !Precedes(after[j], after[i])
    {
      assert !Precedes(order[j], order[i]);
      assert after[i].Ts() == order[i].Ts() && after[i].Name() == order[i].Name();
      assert after[j].Ts() == order[j].Ts() && after[j].Name() == order[j].Name();
    }
  }

  /** In a catalogue in order, what is shown of each archive once newcomers are
      slotted in. */
  lemma SlottedShows(rows: seq<Row>, versions: set<Version>, missing: seq<Meta>, s: int)
    requires InRange(versions, |rows|) && Chronological(Slots(rows)) && 1 <= s <= |Order(rows, missing)|
    ensures Shown(Slotted(rows, versions, missing), s) == ShownAt(versions, Known(Order(rows, missing)), s)
  {
    SlottedIsSplit(rows, versions, missing);
    hide *;
    SlotShows(versions, Known(Order(rows, missing)), s);
  }

  lemma SlottedIsSplit(rows: seq<Row>, versions: set<Version>, missing: seq<Meta>)
    requires InRange(versions, |rows|) && Chronological(Slots(rows))
    ensures var known := Known(Order(rows, missing));
            && Rank(known, |known|) == |rows|
            && Slotted(rows, versions, missing) == SplitTo(MovedAll(versions, known), known, |known|)
  {
    ExistingInOrder(rows, missing);
    MovedInOrder(rows, Order(rows, missing), versions);
  }

  lemma SlottedInRange(rows: seq<Row>, versions: set<Version>, missing: seq<Meta>)
    requires InRange(versions, |rows|) && Chronological(Slots(rows))
    ensures InRange(Slotted(rows, versions, missing), |Order(rows, missing)|)
  {
    SlottedIsSplit(rows, versions, missing);
    hide *;
    SlotInRange(versions, Known(Order(rows, missing)));
    KnownLength(Order(rows, missing));
  }

  lemma KnownLength(order: seq<Slot>)
    ensures |Known(order)| == |order|
  {
  }

  /** And if the rows encoded a history, what they encode then. */
  lemma SlottedEncodes(rows: seq<Row>, versions: set<Version>, missing: seq<Meta>, history: seq<Listing>)
    requires Encodes(versions, history) && |history| == |rows| && Chronological(Slots(rows))
    ensures var known := Known(Order(rows, missing));
            && Rank(known, |known|) == |rows| && InRange(versions, |rows|)
            && Encodes(Slotted(rows, versions, missing), Partly(history, known, |known|))
  {
    EncodedInRange(versions, history);
    SlottedIsSplit(rows, versions, missing);
    var known := Known(Order(rows, missing));
    hide *;
    SyncEncodes(versions, history, known, |known|);
  }

  // ---- Row by row ----

  lemma SurvivorRows(rows: seq<Row>, keep: seq<bool>, i: nat) returns (k: nat)
    requires |rows| == |keep| && i < Rank(keep, |keep|)
    ensures k < |rows| && Surviving(rows, keep)[i] == rows[k] && Rank(keep, k + 1) == i + 1 && keep[k]
  {
    var s := Survivor(rows, keep, i + 1);
    k := s - 1;
  }

  /** What a row is once newcomers are slotted in: the `k`th there was, or a
      newcomer's. */
  lemma StackedRow(kept: seq<Row>, left: set<Version>, missing: seq<Meta>, repo: string, i: nat) returns (k: nat)
    requires InRange(left, |kept|) && Chronological(Slots(kept)) && i < |Order(kept, missing)|
    ensures (k < |kept|) == Order(kept, missing)[i].Existing?
    ensures var row := Stack(Order(kept, missing), repo)[i];
            || (k < |kept| && row == kept[k].(expirable := None) &&
                Shown(Slotted(kept, left, missing), i + 1) == Shown(left, k + 1))
            || (k == |kept| && row.pending && row.repo == repo && Entered(missing, row.name))
  {
    k := |kept|;
    SlottedShows(kept, left, missing, i + 1);
    ExistingInOrder(kept, missing);
    var order := Order(kept, missing);
    hide Order, Chronological, Slotted, Shown, Slots, OnlyExisting;
    if order[i].Existing? {
      SlotAt(kept, order, i + 1);
      k := Rank(Known(order), i + 1) - 1;
      SlotsRow(kept, k);
    } else {
      OrderMembers(kept, missing, order[i]);
      NewcomerEntered(kept, missing, order[i]);
    }
  }

  lemma SlotsRow(rows: seq<Row>, k: nat)
    requires k < |rows|
    ensures Slots(rows)[k] == Existing(k, rows[k])
  {
  }

  lemma NewcomerEntered(rows: seq<Row>, missing: seq<Meta>, slot: Slot)
    requires slot in Slots(rows) + Newcomers(missing) && slot.Newcomer?
    ensures Entered(missing, slot.meta.name)
  {
    var i :| 0 <= i < |Slots(rows) + Newcomers(missing)| && (Slots(rows) + Newcomers(missing))[i] == slot;
    assert missing[i - |rows|] == slot.meta;
  }

  lemma SlotRow(kept: seq<Row>, order: seq<Slot>, i: nat)
    requires OnlyExisting(order) == Slots(kept) && i < |order| && order[i].Existing?
    ensures 1 <= Rank(Known(order), i + 1) <= |kept| && order[i].row == kept[Rank(Known(order), i + 1) - 1]
  {
    SlotAt(kept, order, i + 1);
    SlotsRow(kept, Rank(Known(order), i + 1) - 1);
  }
}
