/** Keeping the catalogue's Snapper snapshots current
    (crates/backtrackd/src/snapper.rs and pipeline.rs): a job is queued for as
    long as what the catalogue holds differs from what was found, and each job
    reads one snapshot, among whatever backups there are. */
module SnapperLoop {
  import opened Index
  import opened IndexRemove
  import opened IndexSync
  import opened IndexOrder
  import opened IndexWriter
  import opened Channel
  import opened Sorting

  /** What comes of reading a snapshot: the items walked, and the paths of the
      folders they are all of; or a failure, after which its row is taken out of
      the catalogue if the catalogue can be written. */
  datatype Result = Reads(items: seq<Item>, covered: set<int>) | Fails(removed: bool)

  /** An archive of the catalogue, and what is shown of it. */
  datatype Seen = Seen(row: Row, held: set<Held>)

  function View(rows: seq<Row>, versions: set<Version>): (view: seq<Seen>)
    ensures |view| == |rows| && forall i :: 0 <= i < |rows| ==> view[i] == Seen(rows[i], Shown(versions, i + 1))
  {
    seq(|rows|, i requires 0 <= i < |rows| => Seen(rows[i], Shown(versions, i + 1)))
  }

  /** A snapshot still to be read. */
  predicate Due(row: Row) {
    row.repo == SNAPPER && row.pending
  }

  /** The snapshots found that have not failed. */
  function Among(found: seq<Meta>, failed: set<string>): (entries: seq<Meta>)
    ensures forall m :: m in entries <==> m in found && m.name !in failed
  {
    if found == [] then []
    else (if found[0].name in failed then [] else [found[0]]) + Among(found[1..], failed)
  }

  /** Whether the catalogue holds other than the snapshots wanted, or one not
      read yet. */
  predicate Stale(found: seq<Meta>, failed: set<string>, rows: seq<Row>) {
    || (exists i :: 0 <= i < |rows| && Due(rows[i]))
    || (exists i :: 0 <= i < |rows| && rows[i].repo == SNAPPER && !Entered(Among(found, failed), rows[i].name))
    || (exists i :: 0 <= i < |found| && found[i].name !in failed && !Recorded(rows, SNAPPER, found[i].name))
  }

  /** The catalogue holds the snapshots found that have not failed, by their
      names, and no others, and has read them all. */
  ghost predicate UpToDate(found: seq<Meta>, failed: set<string>, rows: seq<Row>) {
    && (forall row :: row in rows && row.repo == "snapper" ==> !row.pending)
    && (set row | row in rows && row.repo == "snapper" :: row.name) ==
       (set m | m in found && m.name !in failed :: m.name)
  }

  lemma StaleIff(found: seq<Meta>, failed: set<string>, rows: seq<Row>)
    ensures Stale(found, failed, rows) <==> !UpToDate(found, failed, rows)
  {
    var held := set row | row in rows && row.repo == "snapper" :: row.name;
    var wanted := set m | m in found && m.name !in failed :: m.name;
    forall name
      ensures name in held <==> Recorded(rows, SNAPPER, name)
      ensures name in wanted <==> Entered(Among(found, failed), name)
    {
      if name in held {
        var row :| row in rows && row.repo == "snapper" && row.name == name;
        var i :| 0 <= i < |rows| && rows[i] == row;
      }
      if i :| 0 <= i < |rows| && rows[i].repo == SNAPPER && rows[i].name == name {
        assert rows[i] in rows;
      }
      var entries := Among(found, failed);
      if name in wanted {
        var m :| m in found && m.name !in failed && m.name == name;
        assert m in entries;
        var i :| 0 <= i < |entries| && entries[i] == m;
      }
      if i :| 0 <= i < |entries| && entries[i].name == name {
        assert entries[i] in entries;
      }
    }
    assert held == wanted <==> forall name :: name in held <==> name in wanted;
    hide Entered;
    StaleByName(found, failed, rows, held, wanted);
  }

  lemma StaleByName(found: seq<Meta>, failed: set<string>, rows: seq<Row>, held: set<string>, wanted: set<string>)
    requires held == set row | row in rows && row.repo == "snapper" :: row.name
    requires wanted == set m | m in found && m.name !in failed :: m.name
    requires forall name :: name in held <==> Recorded(rows, SNAPPER, name)
    requires forall name :: name in wanted <==> Entered(Among(found, failed), name)
    ensures Stale(found, failed, rows) <==>
            held != wanted || exists row :: row in rows && row.repo == "snapper" && row.pending
  {
    hide Recorded, Entered;
    if i :| 0 <= i < |rows| && Due(rows[i]) {
      assert rows[i] in rows;
    }
    if row :| row in rows && row.repo == "snapper" && row.pending {
      var i :| 0 <= i < |rows| && rows[i] == row;
      assert Due(rows[i]);
    }
    if i :| 0 <= i < |rows| && rows[i].repo == SNAPPER && !Entered(Among(found, failed), rows[i].name) {
      assert rows[i] in rows && rows[i].name in held && rows[i].name !in wanted;
    }
    if i :| 0 <= i < |found| && found[i].name !in failed && !Recorded(rows, SNAPPER, found[i].name) {
      assert found[i] in found && found[i].name in wanted && found[i].name !in held;
    }
    if name :| name in held && name !in wanted {
      var row :| row in rows && row.repo == "snapper" && row.name == name;
      var i :| 0 <= i < |rows| && rows[i] == row;
      assert rows[i].repo == SNAPPER && !Entered(Among(found, failed), rows[i].name);
    }
    if name :| name in wanted && name !in held {
      var m :| m in found && m.name !in failed && m.name == name;
      var i :| 0 <= i < |found| && found[i] == m;
      assert found[i].name !in failed && !Recorded(rows, SNAPPER, found[i].name);
    }
  }

  /** The newest snapshot still to be read: its number, or 0. */
  function NewestDue(rows: seq<Row>): (s: nat)
    ensures s <= |rows| && (s > 0 ==> rows[s - 1].repo == "snapper" && rows[s - 1].pending)
    ensures forall i :: s <= i < |rows| ==> !(rows[i].repo == "snapper" && rows[i].pending)
  {
    if rows == [] then 0
    else if Due(rows[|rows| - 1]) then |rows|
    else NewestDue(rows[..|rows| - 1])
  }

  // ---- One snapshot ----

  function Before(view: seq<Seen>, i: nat): set<Held>
    requires i < |view|
  {
    if i == 0 then {} else view[i - 1].held
  }

  /** What reading a snapshot makes of it: what was shown of it already, what was
      walked, and, outside the folders walked, what the archive before shows. */
  function Walked(x: Seen, before: set<Held>, items: seq<Item>, covered: set<int>): Seen {
    Seen(x.row.(pending := false), x.held + Says(Gots(items)) + Unspoken(before, covered))
  }

  /** What is left of a snapshot right after its job; and, with `synced`, once the
      next job has matched the catalogue to what is wanted. */
  function Tried(x: Seen, before: set<Held>, result: Result, synced: bool): seq<Seen> {
    match result
    case Reads(items, covered) => [Walked(x, before, items, covered)]
    case Fails(removed) => if removed || synced then [] else [x]
  }

  predicate AllFound(view: seq<Seen>, results: map<string, Result>) {
    forall i :: 0 <= i < |view| && Due(view[i].row) ==> view[i].row.name in results
  }

  /** The archives from the `k`th on, once every snapshot among them that was due
      has been tried. */
  function Settled(view: seq<Seen>, results: map<string, Result>, k: nat): seq<Seen>
    requires k <= |view| && AllFound(view, results)
    decreases |view| - k
  {
    if k == |view| then []
    else
      (if Due(view[k].row) then Tried(view[k], Before(view, k), results[view[k].row.name], true) else [view[k]]) +
      Settled(view, results, k + 1)
  }

  /** The names of the snapshots among them that fail. */
  function Failures(view: seq<Seen>, results: map<string, Result>, k: nat): set<string>
    requires k <= |view| && AllFound(view, results)
  {
    set i | k <= i < |view| && Due(view[i].row) && results[view[i].row.name].Fails? :: view[i].row.name
  }

  // ---- What may be lost of other archives ----

  /** The same archives, none shown more than is meant; and if it is sure, each
      shown all of it. */
  ghost predicate Like(now: seq<Seen>, meant: seq<Seen>, sure: bool) {
    && |now| == |meant|
    && (forall i :: 0 <= i < |now| ==> now[i].row == meant[i].row && now[i].held <= meant[i].held)
    && (sure ==> now == meant)
  }

  /** The first `p` archives are untouched, and the rest are like `rest`. */
  ghost predicate Stands(view: seq<Seen>, p: nat, rest: seq<Seen>, now: seq<Seen>, sure: bool)
    requires p <= |view|
  {
    p <= |now| && now[..p] == view[..p] && Like(now[p..], rest, sure)
  }

  lemma LikeThrough(a: seq<Seen>, b: seq<Seen>, c: seq<Seen>, sure: bool)
    requires Like(a, b, sure) && Like(b, c, sure)
    ensures Like(a, c, sure)
  {
  }

  lemma LikeAfter(a: seq<Seen>, now: seq<Seen>, meant: seq<Seen>, sure: bool)
    requires Like(now, meant, sure)
    ensures Like(a + now, a + meant, sure)
  {
  }

  lemma StandsAll(view: seq<Seen>, p: nat, rest: seq<Seen>, now: seq<Seen>, sure: bool)
    requires p <= |view| && Stands(view, p, rest, now, sure)
    ensures Like(now, view[..p] + rest, sure)
  {
    LikeAfter(view[..p], now[p..], rest, sure);
    assert now == now[..p] + now[p..];
  }

  /** Nothing is claimed of the snapshots that wait, the rows say just what some
      archives held, and every listing names each path once, inside its folders. */
  ghost predicate Sure(results: map<string, Result>, rows: seq<Row>, versions: set<Version>) {
    Encoded(rows, versions) && DueBlank(View(rows, versions)) && Orderly(results)
  }

  ghost predicate Encoded(rows: seq<Row>, versions: set<Version>) {
    exists history: seq<Listing> :: |history| == |rows| && Encodes(versions, history)
  }

  ghost predicate Orderly(results: map<string, Result>) {
    forall name :: name in results && results[name].Reads? ==>
      Once(Gots(results[name].items)) && Mentioned(Gots(results[name].items)) <= results[name].covered
  }

  /** Nothing is shown of a snapshot not read yet. */
  ghost predicate DueBlank(view: seq<Seen>) {
    forall i :: 0 <= i < |view| && Due(view[i].row) ==> view[i].held == {}
  }

  /** A snapshot read shows what it should, and nothing is shown of the others
      that was not. */
  lemma {:induction false} ViewWalked(rows: seq<Row>, versions: set<Version>, s: nat, items: seq<Item>,
                                      covered: set<int>, after: set<Version>, sure: bool)
    requires 1 <= s <= |rows| && InRange(versions, |rows|)
    requires ScopedTo(versions, |rows|, s, Gots(items), covered, after)
    requires sure ==> Encoded(rows, versions) && Mentioned(Gots(items)) <= covered
    ensures InRange(after, |rows|)
    ensures var view := View(rows, versions);
            Like(View(rows[s - 1 := rows[s - 1].(pending := false)], after),
                 view[s - 1 := Walked(view[s - 1], Before(view, s - 1), items, covered)], sure)
    ensures View(rows[s - 1 := rows[s - 1].(pending := false)], after)[..s - 1] == View(rows, versions)[..s - 1]
  {
    hide Shown, Says, Unspoken, InRange, Encodes, Gots, ScopedTo, Mentioned;
    var n := |rows|;
    var view, rows' := View(rows, versions), rows[s - 1 := rows[s - 1].(pending := false)];
    var now, meant := View(rows', after), view[s - 1 := Walked(view[s - 1], Before(view, s - 1), items, covered)];
    ScopedShows(versions, n, s, Gots(items), covered, after, s);
    NoneBeforeFirst(versions, n);
    forall i | 0 <= i < n
      ensures now[i].row == meant[i].row && now[i].held <= meant[i].held
      ensures i < s - 1 ==> now[i] == view[i]
    {
      ScopedShows(versions, n, s, Gots(items), covered, after, i + 1);
    }
    if sure {
      var history: seq<Listing> :| |history| == n && Encodes(versions, history);
      EncodedTells(versions, history, s, Gots(items), covered, after);
      ToldIsSeen(rows, versions, s, items, covered, after);
    }
  }

  lemma {:induction false} ToldIsSeen(rows: seq<Row>, versions: set<Version>, s: nat, items: seq<Item>,
                                      covered: set<int>, after: set<Version>)
    requires 1 <= s <= |rows|
    requires Told(after, |rows|) == ReadOver(Told(versions, |rows|), s, Gots(items), Scoped(covered))
    ensures var view := View(rows, versions);
            View(rows[s - 1 := rows[s - 1].(pending := false)], after) ==
            view[s - 1 := Walked(view[s - 1], Before(view, s - 1), items, covered)]
  {
    hide Shown, Says, Unspoken, Gots;
    var told, now := Told(versions, |rows|), Told(after, |rows|);
    var view, rows' := View(rows, versions), rows[s - 1 := rows[s - 1].(pending := false)];
    forall i | 0 <= i < |rows|
      ensures View(rows', after)[i] == view[s - 1 := Walked(view[s - 1], Before(view, s - 1), items, covered)][i]
    {
      assert Shown(after, i + 1) == now[i] && Shown(versions, i + 1) == told[i];
      assert s > 1 ==> view[s - 2].held == told[s - 2];
    }
  }

  lemma ViewSurvives(rows: seq<Row>, versions: set<Version>, keep: seq<bool>, left: set<Version>)
    requires |keep| == |rows| && RemovedTo(versions, keep, left)
    ensures View(Surviving(rows, keep), left) == Surviving(View(rows, versions), keep)
  {
    var view, told, n := View(rows, versions), Told(versions, |rows|), Rank(keep, |keep|);
    assert Told(left, n) == Surviving(told, keep);
    hide RemovedTo, Shown, Rank;
    forall i | 0 <= i < n
      ensures Surviving(view, keep)[i] == Seen(Surviving(rows, keep)[i], Shown(left, i + 1))
    {
      var a := Survivor(view, keep, i + 1);
      var b := Survivor(rows, keep, i + 1);
      var c := Survivor(told, keep, i + 1);
      SameSurvivor(keep, a, b);
      SameSurvivor(keep, a, c);
      assert Told(left, n)[i] == told[c - 1];
    }
  }

  function AllBut(n: nat, p: nat): (keep: seq<bool>)
    ensures |keep| == n && forall i :: 0 <= i < n ==> keep[i] == (i != p)
  {
    seq(n, i requires 0 <= i < n => i != p)
  }

  lemma {:induction false} WithoutOne<T>(all: seq<T>, p: nat)
    requires p < |all|
    ensures Surviving(all, AllBut(|all|, p)) == all[..p] + all[p + 1..]
  {
    var n := |all| - 1;
    assert AllBut(|all|, p)[..n] == AllBut(n, p);
    if p == n {
      AllSurvive(all[..n], AllBut(n, p));
    } else {
      WithoutOne(all[..n], p);
      assert all[..n][p + 1..] + [all[n]] == all[p + 1..];
    }
  }

  // ---- The job, and the loop ----

  /** What a job leaves of the view, having tried the `p`th. */
  ghost predicate AfterTrying(view: seq<Seen>, p: nat, result: Result, after: seq<Seen>, sure: bool)
    requires p < |view|
  {
    Stands(view, p, Tried(view[p], Before(view, p), result, false) + view[p + 1..], after, sure)
  }

  /** What a job does once the catalogue is matched to what was found: it tries
      the newest snapshot due, if there is one. */
  ghost predicate Ran(results: map<string, Result>, rows: seq<Row>, versions: set<Version>, failed: set<string>, s: nat,
                      afterRows: seq<Row>, after: set<Version>, afterFailed: set<string>)
  {
    && s == NewestDue(rows)
    && if s == 0 then afterFailed == failed && afterRows == rows && after == versions
       else
         && rows[s - 1].name in results
         && afterFailed == failed + (if results[rows[s - 1].name].Fails? then {rows[s - 1].name} else {})
         && match results[rows[s - 1].name]
            case Reads(items, covered) =>
              && afterRows == rows[s - 1 := rows[s - 1].(pending := false)]
              && ReadTo(versions, |rows|, s, Gots(items), Scoped(covered), after)
            case Fails(removed) =>
              if removed then
                && afterRows == Surviving(rows, AllBut(|rows|, s - 1))
                && RemovedTo(versions, AllBut(|rows|, s - 1), after)
              else afterRows == rows && after == versions
  }

  class Catalogue {
    const w: Writer
    var failed: set<string>

    constructor (w: Writer, failed: set<string>)
      ensures this.w == w && this.failed == failed
    {
      this.w, this.failed := w, failed;
    }

    /** Match what was found, and read the newest snapshot outstanding. `rows` and
        `versions` are the catalogue as the sync left it. */
    method RunJob(found: seq<Meta>, results: map<string, Result>)
      returns (s: nat, ghost left: set<Version>, ghost rows: seq<Row>, ghost versions: set<Version>)
      requires w.Valid() && Chronological(Slots(w.rows)) && forall m :: m in found ==> m.name in results
      modifies this, w
      ensures w.Valid() && Chronological(Slots(w.rows)) && InRange(versions, |rows|)
      ensures Matched(old(w.rows), old(w.versions), SNAPPER, Among(found, old(failed)), left, rows, versions)
      ensures forall name :: Recorded(rows, SNAPPER, name) <==> Entered(Among(found, old(failed)), name)
      ensures Ran(results, rows, versions, old(failed), s, w.rows, w.versions, failed)
    {
      hide Matched, Chronological, Slots, ReadTo, RemovedTo, View, Recorded, AfterTrying, NewestDue, Due;
      hide Among, Entered, InRange;
      left := w.SyncArchives(SNAPPER, Among(found, failed));
      rows, versions := w.rows, w.versions;
      s := NewestDue(w.rows);
      if s == 0 {
        return;
      }
      DueIsFound(w.rows, found, failed, results, s - 1);
      var name := w.rows[s - 1].name;
      match results[name] {
        case Reads(items, covered) =>
          var ok := w.Ingest(s, Gots(items), Scoped(covered));
          SameTimes(rows, w.rows);
        case Fails(removed) =>
          failed := failed + {name};
          if removed {
            w.Remove(AllBut(|w.rows|, s - 1));
            KeptSorted(rows, AllBut(|rows|, s - 1));
          }
      }
    }

    /** Look, queue a job if there is anything for one to do, and look again when
        it ends. `rows` and `versions` are the catalogue as the first job's sync
        left it, and `tried` the snapshots tried, by their places in it. */
    method Watch(found: seq<Meta>, results: map<string, Result>)
      returns (jobs: nat, ghost left: set<Version>, ghost rows: seq<Row>, ghost versions: set<Version>,
               ghost tried: seq<nat>)
      requires w.Valid() && Chronological(Slots(w.rows)) && EachOnce(w.rows)
      requires NamedOnce(found) && forall m :: m in found ==> m.name in results
      modifies this, w
      ensures w.Valid() && UpToDate(found, failed, w.rows)
      ensures jobs == 0 <==> UpToDate(found, old(failed), old(w.rows))
      ensures jobs == 0 ==> failed == old(failed) && w.rows == old(w.rows) && w.versions == old(w.versions)
      ensures |tried| <= jobs <= |tried| + 1
      ensures jobs > 0 ==>
                && Matched(old(w.rows), old(w.versions), SNAPPER, Among(found, old(failed)), left, rows, versions)
                && AllFound(View(rows, versions), results)
                && Like(View(w.rows, w.versions), Settled(View(rows, versions), results, 0),
                        Sure(results, rows, versions))
                && failed == old(failed) + Failures(View(rows, versions), results, 0)
                && TriedTo(rows, 0, tried)
    {
      hide Stale, Matched, AfterTrying, Ran, View, Recorded, Begins, Progress, Settled, Failures, Chronological, Slots;
      hide EachOnce, NamedOnce, AllFound, Due, Among, TriedTo, Sure, Like, InRange, UpToDate;
      jobs, tried, left, rows, versions := 0, [], {}, [], {};
      StaleIff(found, failed, w.rows);
      if !Stale(found, failed, w.rows) {
        return;
      }
      ghost var failedFirst := failed;
      var s: nat;
      s, left, rows, versions := RunJob(found, results);
      jobs := 1;
      StartsFirst(found, failedFirst, results, old(w.rows), old(w.versions), left, rows, versions);
      ghost var view, sure := View(rows, versions), Sure(results, rows, versions);
      ghost var p: nat;
      p := FirstJob(found, failedFirst, results, rows, versions, s, w.rows, w.versions, failed, sure);
      tried := if s == 0 then [] else [s - 1];
      ghost var done := s == 0;
      while Stale(found, failed, w.rows)
        invariant w.Valid() && Chronological(Slots(w.rows)) && view == View(rows, versions)
        invariant Matched(old(w.rows), old(w.versions), SNAPPER, Among(found, failedFirst), left, rows, versions)
        invariant Begins(found, failedFirst, results, view) && AllFound(view, results)
        invariant Progress(found, failedFirst, results, view, p, done, w.rows, w.versions, failed, sure)
        invariant TriedTo(rows, if done then 0 else p, tried)
        invariant 1 <= jobs && (if done then |tried| <= jobs <= |tried| + 1 else jobs == |tried|)
        decreases p, !done
      {
        ghost var rowsBefore, versionsBefore, failedBefore := w.rows, w.versions, failed;
        ghost var leftNow, rowsNow, versionsNow;
        s, leftNow, rowsNow, versionsNow := RunJob(found, results);
        jobs := jobs + 1;
        StillGoing(found, failedFirst, results, view, p, done, rowsBefore, versionsBefore, failedBefore, sure);
        NextJob(found, failedFirst, results, view, p, rowsBefore, versionsBefore, failedBefore, leftNow, rowsNow,
                versionsNow, s, w.rows, w.versions, failed, rows, tried, sure);
        if s == 0 {
          done := true;
        } else {
          p, tried := s - 1, tried + [s - 1];
        }
      }
      AllTried(found, failedFirst, results, view, p, done, w.rows, w.versions, failed, rows, tried, sure);
      StaleIff(found, failed, w.rows);
    }
  }

  /** Trying a snapshot leaves the catalogue like what is meant. */
  lemma {:induction false} RanTries(results: map<string, Result>, rows: seq<Row>, versions: set<Version>,
                                    failed: set<string>, s: nat, afterRows: seq<Row>, after: set<Version>,
                                    afterFailed: set<string>, sure: bool)
    requires Ran(results, rows, versions, failed, s, afterRows, after, afterFailed) && s > 0
    requires InRange(versions, |rows|) && (sure ==> Sure(results, rows, versions))
    ensures AfterTrying(View(rows, versions), s - 1, results[rows[s - 1].name], View(afterRows, after), sure)
    ensures sure ==> Sure(results, afterRows, after)
  {
    assert Due(rows[s - 1]);
    hide ReadTo, RemovedTo, View, AfterTrying, Sure, NewestDue, Due, Gots;
    match results[rows[s - 1].name] {
      case Reads(items, covered) =>
        ReadsScoped(rows, versions, s, items, covered, after);
        SureFits(results, rows, versions, rows[s - 1].name, s);
        TriedReads(rows, versions, s, items, covered, after, sure);
        if sure {
          SureReads(results, rows, versions, s, items, covered, after);
        }
      case Fails(removed) =>
        if removed {
          TriedFails(rows, versions, s, after, sure);
          if sure {
            SureRemoves(results, rows, versions, AllBut(|rows|, s - 1), after);
          }
        } else {
          TriedStays(rows, versions, s, sure);
        }
    }
  }

  lemma {:induction false} ReadsScoped(rows: seq<Row>, versions: set<Version>, s: nat, items: seq<Item>,
                                       covered: set<int>, after: set<Version>)
    requires 1 <= s <= |rows| && ReadTo(versions, |rows|, s, Gots(items), Scoped(covered), after)
    ensures ScopedTo(versions, |rows|, s, Gots(items), covered, after)
  {
  }

  lemma {:induction false} SureFits(results: map<string, Result>, rows: seq<Row>, versions: set<Version>, name: string,
                                    s: nat)
    requires name in results
    ensures Sure(results, rows, versions) ==> Encoded(rows, versions)
    ensures Sure(results, rows, versions) && results[name].Reads? ==>
              Mentioned(Gots(results[name].items)) <= results[name].covered
  {
    hide Encoded, DueBlank, Mentioned, Once;
  }

  lemma {:induction false} TriedReads(rows: seq<Row>, versions: set<Version>, s: nat, items: seq<Item>,
                                      covered: set<int>, after: set<Version>, sure: bool)
    requires 1 <= s <= |rows| && InRange(versions, |rows|)
    requires ScopedTo(versions, |rows|, s, Gots(items), covered, after)
    requires sure ==> Encoded(rows, versions) && Mentioned(Gots(items)) <= covered
    ensures AfterTrying(View(rows, versions), s - 1, Reads(items, covered),
                        View(rows[s - 1 := rows[s - 1].(pending := false)], after), sure)
  {
    hide Walked, ScopedTo, InRange, Encoded, Mentioned, Gots, Shown;
    ViewWalked(rows, versions, s, items, covered, after, sure);
    var view, now := View(rows, versions), View(rows[s - 1 := rows[s - 1].(pending := false)], after);
    var meant := view[s - 1 := Walked(view[s - 1], Before(view, s - 1), items, covered)];
    assert meant[s - 1..] == [Walked(view[s - 1], Before(view, s - 1), items, covered)] + view[s..];
    assert now[..s - 1] == view[..s - 1];
    assert Like(now[s - 1..], meant[s - 1..], sure);
  }

  /** What is sure stays so when a snapshot is read. */
  lemma {:induction false} SureReads(results: map<string, Result>, rows: seq<Row>, versions: set<Version>, s: nat,
                                     items: seq<Item>, covered: set<int>, after: set<Version>)
    requires 1 <= s <= |rows| && Due(rows[s - 1]) && InRange(versions, |rows|) && Sure(results, rows, versions)
    requires s == NewestDue(rows)
    requires rows[s - 1].name in results && results[rows[s - 1].name] == Reads(items, covered)
    requires ReadTo(versions, |rows|, s, Gots(items), Scoped(covered), after)
    ensures Sure(results, rows[s - 1 := rows[s - 1].(pending := false)], after)
  {
    hide Encodes, Shown, InRange, Fits, Mentioned, Once, Gots, View, ReadTo, DueBlank, ScopedTo;
    var history: seq<Listing> :| |history| == |rows| && Encodes(versions, history);
    NothingClaimed(rows, versions, s, history);
    OrderlyFits(results, rows[s - 1].name, s, |rows|);
    ReadToEncodes(versions, history, s, Gots(items), Scoped(covered), after);
    ReadsScoped(rows, versions, s, items, covered, after);
    BlankStill(rows, versions, s, items, covered, after);
  }

  lemma {:induction false} NothingClaimed(rows: seq<Row>, versions: set<Version>, s: nat, history: seq<Listing>)
    requires 1 <= s <= |rows| && Due(rows[s - 1]) && DueBlank(View(rows, versions))
    requires |history| == |rows| && Encodes(versions, history)
    ensures history[s - 1] == map[]
  {
    hide Encodes, Shown;
    assert View(rows, versions)[s - 1].held == {};
    EncodedShows(versions, history, s);
    NoPairs(history[s - 1]);
  }

  lemma {:induction false} OrderlyFits(results: map<string, Result>, name: string, s: nat, n: nat)
    requires Orderly(results) && name in results && results[name].Reads?
    ensures Fits(Gots(results[name].items), Scoped(results[name].covered), s, n)
  {
    var items := Gots(results[name].items);
    assert Once(items) && Mentioned(items) <= results[name].covered;
    assert forall i :: 0 <= i < |items| ==> items[i].path in Mentioned(items);
  }

  lemma {:induction false} BlankStill(rows: seq<Row>, versions: set<Version>, s: nat, items: seq<Item>,
                                      covered: set<int>, after: set<Version>)
    requires 1 <= s <= |rows| && s == NewestDue(rows) && InRange(versions, |rows|) && DueBlank(View(rows, versions))
    requires ScopedTo(versions, |rows|, s, Gots(items), covered, after)
    ensures DueBlank(View(rows[s - 1 := rows[s - 1].(pending := false)], after))
  {
    hide ScopedTo, InRange, Shown, Gots;
    var rows' := rows[s - 1 := rows[s - 1].(pending := false)];
    forall i | 0 <= i < |rows| && Due(rows'[i])
      ensures Shown(after, i + 1) == {}
    {
      ScopedShows(versions, |rows|, s, Gots(items), covered, after, i + 1);
      assert View(rows, versions)[i].held == {};
    }
  }

  /** And when archives are removed. */
  lemma {:induction false} SureRemoves(results: map<string, Result>, rows: seq<Row>, versions: set<Version>,
                                       keep: seq<bool>, left: set<Version>)
    requires |keep| == |rows| && RemovedTo(versions, keep, left) && Sure(results, rows, versions)
    ensures Sure(results, Surviving(rows, keep), left)
  {
    hide Encodes, Shown, Due, Orderly, Surviving, View, Rank;
    var history: seq<Listing> :| |history| == |rows| && Encodes(versions, history);
    assert Encodes(left, Surviving(history, keep));
    ViewSurvives(rows, versions, keep, left);
    var view := View(rows, versions);
    forall i | 0 <= i < |Surviving(view, keep)| && Due(Surviving(view, keep)[i].row)
      ensures Surviving(view, keep)[i].held == {}
    {
      var k := Survivor(view, keep, i + 1);
    }
  }

  lemma {:induction false} TriedFails(rows: seq<Row>, versions: set<Version>, s: nat, after: set<Version>, sure: bool)
    requires 1 <= s <= |rows| && RemovedTo(versions, AllBut(|rows|, s - 1), after)
    ensures AfterTrying(View(rows, versions), s - 1, Fails(true), View(Surviving(rows, AllBut(|rows|, s - 1)), after),
                        sure)
  {
    hide *;
    ViewSurvives(rows, versions, AllBut(|rows|, s - 1), after);
    WithoutOne(View(rows, versions), s - 1);
    TriedGone(View(rows, versions), s - 1, sure);
  }

  lemma TriedGone(view: seq<Seen>, p: nat, sure: bool)
    requires p < |view|
    ensures AfterTrying(view, p, Fails(true), view[..p] + view[p + 1..], sure)
  {
    var after := view[..p] + view[p + 1..];
    assert after[..p] == view[..p] && after[p..] == [] + view[p + 1..];
  }

  lemma TriedStays(rows: seq<Row>, versions: set<Version>, s: nat, sure: bool)
    requires 1 <= s <= |rows|
    ensures AfterTrying(View(rows, versions), s - 1, Fails(false), View(rows, versions), sure)
  {
    hide View;
    var view := View(rows, versions);
    assert view[s - 1..] == [view[s - 1]] + view[s..];
  }

  lemma SameTimes(rows: seq<Row>, after: seq<Row>)
    requires |after| == |rows| && forall i :: 0 <= i < |rows| ==>
               after[i].ts == rows[i].ts && after[i].name == rows[i].name
    ensures Chronological(Slots(rows)) ==> Chronological(Slots(after))
  {
    forall i, j | 0 <= i < j < |rows|
      ensures Precedes(Slots(after)[j], Slots(after)[i]) <==> Precedes(Slots(rows)[j], Slots(rows)[i])
    {
    }
  }

  lemma DueIsFound(rows: seq<Row>, found: seq<Meta>, failed: set<string>, results: map<string, Result>, i: nat)
    requires i < |rows| && Due(rows[i]) && forall m :: m in found ==> m.name in results
    requires Recorded(rows, SNAPPER, rows[i].name) ==> Entered(Among(found, failed), rows[i].name)
    ensures rows[i].name in results
  {
    assert Recorded(rows, SNAPPER, rows[i].name);
    var entries := Among(found, failed);
    var k :| 0 <= k < |entries| && entries[k].name == rows[i].name;
    assert entries[k] in entries;
  }

  // ---- Trying them all ----

  lemma {:induction false} SettledJoins(view: seq<Seen>, results: map<string, Result>, a: nat, b: nat)
    requires a <= b <= |view| && AllFound(view, results)
    requires forall i :: a <= i < b ==> !Due(view[i].row)
    ensures Settled(view, results, a) == view[a..b] + Settled(view, results, b)
    decreases b - a
  {
    if a == b {
      assert view[a..b] == [];
    } else {
      SettledJoins(view, results, a + 1, b);
      assert Settled(view, results, a) == [view[a]] + Settled(view, results, a + 1);
      hide Settled, AllFound, Due;
      assert view[a..b] == [view[a]] + view[a + 1..b];
    }
  }

  /** A row left by trying them all is one that was there, by name, and no longer
      due; not one that failed. */
  lemma {:induction false} SettledFrom(view: seq<Seen>, results: map<string, Result>, k: nat, x: Seen) returns (i: nat)
    requires k <= |view| && AllFound(view, results)
    requires x in Settled(view, results, k)
    ensures k <= i < |view| && x.row == view[i].row.(pending := x.row.pending) && !Due(x.row)
    ensures Due(view[i].row) ==> results[view[i].row.name].Reads?
    decreases |view| - k
  {
    var here :=
      if Due(view[k].row) then Tried(view[k], Before(view, k), results[view[k].row.name], true) else [view[k]];
    assert Settled(view, results, k) == here + Settled(view, results, k + 1);
    if x in here {
      i := k;
    } else {
      i := SettledFrom(view, results, k + 1, x);
    }
  }

  /** And every row that was there is left, unless it failed. */
  lemma {:induction false} SettledHolds(view: seq<Seen>, results: map<string, Result>, k: nat, i: nat) returns (x: Seen)
    requires k <= i < |view| && AllFound(view, results)
    requires Due(view[i].row) ==> results[view[i].row.name].Reads?
    ensures x in Settled(view, results, k)
    ensures if Due(view[i].row)
            then
              x == Walked(view[i], Before(view, i), results[view[i].row.name].items, results[view[i].row.name].covered)
            else x == view[i]
    decreases |view| - k
  {
    var here :=
      if Due(view[k].row) then Tried(view[k], Before(view, k), results[view[k].row.name], true) else [view[k]];
    assert Settled(view, results, k) == here + Settled(view, results, k + 1);
    if i == k {
      x := here[0];
    } else {
      x := SettledHolds(view, results, k + 1, i);
    }
  }

  /** The rows of a view that stay when the catalogue is matched to `entries`. */
  function Stays(row: Row, entries: seq<Meta>): bool {
    row.repo != SNAPPER || Entered(entries, row.name)
  }

  function Matching(view: seq<Seen>, entries: seq<Meta>): seq<Seen>
  {
    if view == [] then []
    else
      var n := |view| - 1;
      Matching(view[..n], entries) + (if Stays(view[n].row, entries) then [view[n]] else [])
  }

  lemma {:induction false} SurvivingMatches(rows: seq<Row>, view: seq<Seen>, entries: seq<Meta>)
    requires |view| == |rows| && forall i :: 0 <= i < |rows| ==> view[i].row == rows[i]
    ensures Surviving(view, Wanted(rows, SNAPPER, entries)) == Matching(view, entries)
  {
    if view != [] {
      var n := |view| - 1;
      SurvivingMatches(rows[..n], view[..n], entries);
      assert Wanted(rows, SNAPPER, entries)[..n] == Wanted(rows[..n], SNAPPER, entries);
    }
  }

  lemma {:induction false} MatchingJoins(a: seq<Seen>, b: seq<Seen>, entries: seq<Meta>)
    ensures Matching(a + b, entries) == Matching(a, entries) + Matching(b, entries)
    decreases |b|
  {
    if b == [] {
      assert a + b == a;
    } else {
      var n := |b| - 1;
      MatchingJoins(a, b[..n], entries);
      assert (a + b)[..|a| + n] == a + b[..n];
    }
  }

  lemma {:induction false} AllMatching(view: seq<Seen>, entries: seq<Meta>)
    requires forall x :: x in view ==> Stays(x.row, entries)
    ensures Matching(view, entries) == view
  {
    if view != [] {
      var n := |view| - 1;
      assert view[n] in view;
      AllMatching(view[..n], entries);
      assert view == view[..n] + [view[n]];
    }
  }

  // ---- From one job to the next ----

  /** Every snapshot is in the catalogue once. */
  ghost predicate EachOnce(rows: seq<Row>) {
    forall i, j :: 0 <= i < j < |rows| && rows[i].repo == SNAPPER && rows[j].repo == SNAPPER ==>
      rows[i].name != rows[j].name
  }

  /** The catalogue, as the first job's sync left it: exactly the snapshots
      wanted, each once. */
  ghost predicate Begins(found: seq<Meta>, failed: set<string>, results: map<string, Result>, view: seq<Seen>) {
    && AllFound(view, results)
    && (forall i, j :: 0 <= i < j < |view| && view[i].row.repo == SNAPPER && view[j].row.repo == SNAPPER ==>
          view[i].row.name != view[j].row.name)
    && (forall i :: 0 <= i < |view| && view[i].row.repo == SNAPPER ==>
          Entered(found, view[i].row.name) && view[i].row.name !in failed)
    && (forall m :: m in found && m.name !in failed ==> In(view, m.name))
  }

  predicate In(view: seq<Seen>, name: string) {
    exists i :: 0 <= i < |view| && view[i].row.repo == SNAPPER && view[i].row.name == name
  }

  /** The snapshots from the `p`th archive on have been tried, and the catalogue
      matched to what is wanted since. */
  ghost predicate SyncedAt(view: seq<Seen>, failed: set<string>, results: map<string, Result>, p: nat, now: seq<Seen>,
                           nowFailed: set<string>, sure: bool)
    requires p <= |view| && AllFound(view, results)
  {
    Stands(view, p, Settled(view, results, p), now, sure) && nowFailed == failed + Failures(view, results, p)
  }

  /** The `p`th has just been tried. */
  ghost predicate TriedAt(view: seq<Seen>, failed: set<string>, results: map<string, Result>, p: nat, now: seq<Seen>,
                          nowFailed: set<string>, sure: bool)
    requires p < |view| && AllFound(view, results)
  {
    && Due(view[p].row)
    && Stands(view, p, Tried(view[p], Before(view, p), results[view[p].row.name], false) +
                       Settled(view, results, p + 1), now, sure)
    && nowFailed == failed + Failures(view, results, p)
  }

  /** What failed further on is not what is here. */
  lemma FailedElsewhere(found: seq<Meta>, failed: set<string>, results: map<string, Result>, view: seq<Seen>, p: nat,
                        i: nat)
    requires Begins(found, failed, results, view) && p <= |view| && i < |view| && view[i].row.repo == SNAPPER
    requires p <= i && Due(view[i].row) ==> results[view[i].row.name].Reads?
    ensures view[i].row.name !in failed + Failures(view, results, p)
  {
    forall j | p <= j < |view| && Due(view[j].row) && results[view[j].row.name].Fails?
      ensures view[j].row.name != view[i].row.name
    {
    }
  }

  lemma FailuresHold(view: seq<Seen>, results: map<string, Result>, p: nat)
    requires p <= |view| && AllFound(view, results)
    ensures forall i :: p <= i < |view| && Due(view[i].row) && results[view[i].row.name].Fails? ==>
              view[i].row.name in Failures(view, results, p)
  {
  }

  lemma EnteredAmong(found: seq<Meta>, failed: set<string>, name: string)
    ensures Entered(Among(found, failed), name) <==> Entered(found, name) && name !in failed
  {
    var entries := Among(found, failed);
    if i :| 0 <= i < |entries| && entries[i].name == name {
      assert entries[i] in entries;
      var k :| 0 <= k < |found| && found[k] == entries[i];
    }
    if k :| 0 <= k < |found| && found[k].name == name && name !in failed {
      assert found[k] in entries;
      var i :| 0 <= i < |entries| && entries[i] == found[k];
    }
  }

  lemma PrefixStays(found: seq<Meta>, failed: set<string>, results: map<string, Result>, view: seq<Seen>, p: nat)
    requires Begins(found, failed, results, view) && p <= |view|
    ensures forall x :: x in view[..p] ==> Stays(x.row, Among(found, failed + Failures(view, results, p)))
  {
    var now := failed + Failures(view, results, p);
    forall x | x in view[..p]
      ensures Stays(x.row, Among(found, now))
    {
      var i :| 0 <= i < p && view[i] == x;
      if x.row.repo == SNAPPER {
        FailedElsewhere(found, failed, results, view, p, i);
        EnteredAmong(found, now, x.row.name);
      }
    }
  }

  lemma RestStays(found: seq<Meta>, failed: set<string>, results: map<string, Result>, view: seq<Seen>, p: nat)
    requires Begins(found, failed, results, view) && p < |view|
    ensures forall x :: x in Settled(view, results, p + 1) ==>
              Stays(x.row, Among(found, failed + Failures(view, results, p)))
  {
    var now := failed + Failures(view, results, p);
    forall x | x in Settled(view, results, p + 1)
      ensures Stays(x.row, Among(found, now))
    {
      var i := SettledFrom(view, results, p + 1, x);
      if x.row.repo == SNAPPER {
        FailedElsewhere(found, failed, results, view, p, i);
        EnteredAmong(found, now, x.row.name);
      }
    }
  }

  lemma TriedStaysIff(found: seq<Meta>, failed: set<string>, results: map<string, Result>, view: seq<Seen>, p: nat)
    requires Begins(found, failed, results, view) && p < |view| && Due(view[p].row)
    ensures results[view[p].row.name].Reads? <==>
            Entered(Among(found, failed + Failures(view, results, p)), view[p].row.name)
  {
    EnteredAmong(found, failed + Failures(view, results, p), view[p].row.name);
    if results[view[p].row.name].Reads? {
      FailedElsewhere(found, failed, results, view, p, p);
    } else {
      FailuresHold(view, results, p);
    }
  }

  /** The next sync takes out a snapshot that failed and could not be taken out
      then, and leaves the rest. */
  lemma MatchingTried(found: seq<Meta>, failed: set<string>, results: map<string, Result>, view: seq<Seen>, p: nat,
                      now: seq<Seen>, nowFailed: set<string>, sure: bool)
    requires Begins(found, failed, results, view) && p < |view|
    requires TriedAt(view, failed, results, p, now, nowFailed, sure)
    ensures Stands(view, p, Settled(view, results, p), Matching(now, Among(found, nowFailed)), sure)
  {
    hide *;
    FirstFound(found, failed, results, view);
    var entries := Among(found, nowFailed);
    TriedAtIs(view, failed, results, p, now, nowFailed, sure);
    var result := results[view[p].row.name];
    var rest := Settled(view, results, p + 1);
    PrefixStays(found, failed, results, view, p);
    RestStays(found, failed, results, view, p);
    TriedStaysIff(found, failed, results, view, p);
    SettledNext(view, results, p);
    AllMatching(view[..p], entries);
    AllMatching(rest, entries);
    MatchingOne(view[p], Before(view, p), result, entries);
    MatchingJoins(Tried(view[p], Before(view, p), result, false), rest, entries);
    MatchingStands(view, p, Tried(view[p], Before(view, p), result, false) + rest, now, entries, sure);
  }

  lemma {:induction false} MatchingLike(now: seq<Seen>, meant: seq<Seen>, entries: seq<Meta>, sure: bool)
    requires Like(now, meant, sure)
    ensures Like(Matching(now, entries), Matching(meant, entries), sure)
  {
    if now != [] {
      var n := |now| - 1;
      MatchingLike(now[..n], meant[..n], entries, sure);
    }
  }

  lemma {:induction false} MatchingStands(view: seq<Seen>, p: nat, rest: seq<Seen>, now: seq<Seen>, entries: seq<Meta>,
                                          sure: bool)
    requires p <= |view| && Stands(view, p, rest, now, sure) && Matching(view[..p], entries) == view[..p]
    ensures Stands(view, p, Matching(rest, entries), Matching(now, entries), sure)
  {
    hide Matching, Like;
    MatchingLike(now[p..], rest, entries, sure);
    MatchingJoins(now[..p], now[p..], entries);
    assert now == now[..p] + now[p..];
    var after := Matching(now, entries);
    assert after[..p] == view[..p] && after[p..] == Matching(now[p..], entries);
  }

  lemma FirstFound(found: seq<Meta>, failed: set<string>, results: map<string, Result>, view: seq<Seen>)
    requires Begins(found, failed, results, view)
    ensures AllFound(view, results)
    ensures forall i :: 0 <= i < |view| && Due(view[i].row) ==> view[i].row.name in results
  {
  }

  lemma TriedAtIs(view: seq<Seen>, failed: set<string>, results: map<string, Result>, p: nat, now: seq<Seen>,
                  nowFailed: set<string>, sure: bool)
    requires p < |view| && AllFound(view, results) && TriedAt(view, failed, results, p, now, nowFailed, sure)
    ensures Due(view[p].row) && view[p].row.name in results
    ensures Stands(view, p, Tried(view[p], Before(view, p), results[view[p].row.name], false) +
                            Settled(view, results, p + 1), now, sure)
    ensures nowFailed == failed + Failures(view, results, p)
  {
    hide Tried, Settled, Failures, Stands;
  }

  lemma MatchingOne(x: Seen, before: set<Held>, result: Result, entries: seq<Meta>)
    requires Due(x.row) && (result.Reads? <==> Entered(entries, x.row.name))
    ensures Matching(Tried(x, before, result, false), entries) == Tried(x, before, result, true)
  {
    hide Walked;
    assert Walked(x, before, [], {}).row.name == x.row.name by {
      WalkedName(x, before, [], {});
    }
    match result {
      case Reads(items, covered) =>
        WalkedName(x, before, items, covered);
        assert Matching([Walked(x, before, items, covered)][..0], entries) == [];
      case Fails(removed) =>
        assert [x][..0] == [];
    }
  }

  lemma WalkedName(x: Seen, before: set<Held>, items: seq<Item>, covered: set<int>)
    ensures Walked(x, before, items, covered).row == x.row.(pending := false)
  {
  }

  lemma SettledNext(view: seq<Seen>, results: map<string, Result>, p: nat)
    requires p < |view| && AllFound(view, results) && Due(view[p].row)
    ensures Settled(view, results, p) ==
            Tried(view[p], Before(view, p), results[view[p].row.name], true) + Settled(view, results, p + 1)
  {
  }

  /** Nothing is missing from what the next sync leaves. */
  lemma NothingMissing(found: seq<Meta>, failed: set<string>, results: map<string, Result>, view: seq<Seen>, p: nat,
                       nowFailed: set<string>, name: string)
    requires Begins(found, failed, results, view) && p <= |view| && nowFailed == failed + Failures(view, results, p)
    requires Entered(Among(found, nowFailed), name)
    ensures In(view[..p] + Settled(view, results, p), name)
  {
    hide Among, Due, Settled;
    EnteredAmong(found, nowFailed, name);
    var k :| 0 <= k < |found| && found[k].name == name;
    assert found[k] in found;
    assert In(view, name);
    var i :| 0 <= i < |view| && view[i].row.repo == SNAPPER && view[i].row.name == name;
    var left := Settled(view, results, p);
    if i < p {
      assert (view[..p] + left)[i] == view[i];
    } else {
      FailuresHold(view, results, p);
      var x := SettledHolds(view, results, p, i);
      var j :| 0 <= j < |left| && left[j] == x;
      assert (view[..p] + left)[p + j] == x;
    }
  }

  // ---- Each snapshot once ----

  ghost predicate NamedOnce(entries: seq<Meta>) {
    forall i, j :: 0 <= i < j < |entries| ==> entries[i].name != entries[j].name
  }

  lemma {:induction false} AmongNamedOnce(found: seq<Meta>, failed: set<string>)
    requires NamedOnce(found)
    ensures NamedOnce(Among(found, failed))
  {
    if found != [] {
      AmongNamedOnce(found[1..], failed);
      var rest := Among(found[1..], failed);
      forall i | 0 <= i < |rest|
        ensures rest[i].name != found[0].name
      {
        assert rest[i] in rest;
        var k :| 0 <= k < |found[1..]| && found[1..][k] == rest[i];
        assert found[k + 1] == rest[i];
      }
    }
  }

  lemma KeptOnce(rows: seq<Row>, keep: seq<bool>)
    requires |rows| == |keep| && EachOnce(rows)
    ensures EachOnce(Surviving(rows, keep))
  {
    var kept := Surviving(rows, keep);
    forall i, j | 0 <= i < j < |kept| && kept[i].repo == SNAPPER && kept[j].repo == SNAPPER
      ensures kept[i].name != kept[j].name
    {
      var a := Survivor(rows, keep, i + 1);
      var b := Survivor(rows, keep, j + 1);
      assert a != b && (a < b || b < a);
    }
  }

  lemma MissingUnlike(rows: seq<Row>, entries: seq<Meta>)
    requires NamedOnce(entries)
    ensures NamedOnce(Missing(rows, SNAPPER, entries))
  {
    if entries != [] {
      MissingUnlike(rows, entries[1..]);
      var rest := Missing(rows, SNAPPER, entries[1..]);
      forall i | 0 <= i < |rest|
        ensures rest[i].name != entries[0].name
      {
        assert rest[i] in rest;
        var k :| 0 <= k < |entries[1..]| && entries[1..][k] == rest[i];
        assert entries[k + 1] == rest[i];
      }
    }
  }

  lemma SlotsUnlike(rows: seq<Row>, missing: seq<Meta>)
    requires NamedOnce(missing)
    ensures NoneAlike(Slots(rows) + Newcomers(missing))
  {
  }

  lemma SlotsNamedOnce(rows: seq<Row>, missing: seq<Meta>, a: Slot, b: Slot)
    requires EachOnce(rows) && NamedOnce(missing) && a != b
    requires forall i :: 0 <= i < |missing| ==> !Recorded(rows, SNAPPER, missing[i].name)
    requires a in Slots(rows) + Newcomers(missing) && b in Slots(rows) + Newcomers(missing)
    requires Restacked(a, SNAPPER).repo == SNAPPER && Restacked(b, SNAPPER).repo == SNAPPER
    ensures a.Name() != b.Name()
  {
    var all := Slots(rows) + Newcomers(missing);
    var i :| 0 <= i < |all| && all[i] == a;
    var j :| 0 <= j < |all| && all[j] == b;
    assert i < |rows| ==> a == Existing(i, rows[i]);
    assert j < |rows| ==> b == Existing(j, rows[j]);
    assert i >= |rows| ==> a == Newcomer(missing[i - |rows|]);
    assert j >= |rows| ==> b == Newcomer(missing[j - |rows|]);
  }

  lemma StackedOnce(rows: seq<Row>, missing: seq<Meta>)
    requires EachOnce(rows) && NamedOnce(missing)
    requires forall i :: 0 <= i < |missing| ==> !Recorded(rows, SNAPPER, missing[i].name)
    ensures EachOnce(Stack(Order(rows, missing), SNAPPER))
  {
    SlotsUnlike(rows, missing);
    PrecedesOrders();
    SortedUnlike(Precedes, Slots(rows) + Newcomers(missing));
    var order := Order(rows, missing);
    var after := Stack(order, SNAPPER);
    hide Slots, Newcomers, EachOnce, NamedOnce, Recorded;
    forall i, j | 0 <= i < j < |after| && after[i].repo == SNAPPER && after[j].repo == SNAPPER
      ensures after[i].name != after[j].name
    {
      OrderMembers(rows, missing, order[i]);
      OrderMembers(rows, missing, order[j]);
      SlotsNamedOnce(rows, missing, order[i], order[j]);
    }
    OnceByIndex(after);
  }

  lemma OnceByIndex(rows: seq<Row>)
    requires forall i, j :: 0 <= i < j < |rows| && rows[i].repo == SNAPPER && rows[j].repo == SNAPPER ==>
               rows[i].name != rows[j].name
    ensures EachOnce(rows)
  {
  }

  lemma MatchedOnce(rows: seq<Row>, versions: set<Version>, entries: seq<Meta>, left: set<Version>, afterRows: seq<Row>,
                    after: set<Version>)
    requires EachOnce(rows) && NamedOnce(entries) && Matched(rows, versions, SNAPPER, entries, left, afterRows, after)
    ensures EachOnce(afterRows)
  {
    var keep := Wanted(rows, SNAPPER, entries);
    var kept := Surviving(rows, keep);
    var missing := Missing(kept, SNAPPER, entries);
    KeptOnce(rows, keep);
    MissingUnlike(kept, entries);
    hide RemovedTo, EachOnce, NamedOnce, Surviving, Order;
    if missing != [] {
      forall i | 0 <= i < |missing|
        ensures !Recorded(kept, SNAPPER, missing[i].name)
      {
        assert missing[i] in missing;
      }
      StackedOnce(kept, missing);
    }
  }

  // ---- All of it ----

  lemma {:induction false} StartsFirst(found: seq<Meta>, failed: set<string>, results: map<string, Result>,
                                       before: seq<Row>, versionsBefore: set<Version>, left: set<Version>,
                                       rows: seq<Row>, versions: set<Version>)
    requires EachOnce(before) && NamedOnce(found) && forall m :: m in found ==> m.name in results
    requires Matched(before, versionsBefore, SNAPPER, Among(found, failed), left, rows, versions)
    requires forall name :: Recorded(rows, SNAPPER, name) <==> Entered(Among(found, failed), name)
    ensures var view := View(rows, versions);
            && Begins(found, failed, results, view) && AllFound(view, results)
            && SyncedAt(view, failed, results, |view|, view, failed, Sure(results, rows, versions))
  {
    hide *;
    AmongNamedOnce(found, failed);
    MatchedOnce(before, versionsBefore, Among(found, failed), left, rows, versions);
    BeginsSo(found, failed, results, rows, versions);
    SyncedAtStart(failed, results, View(rows, versions), Sure(results, rows, versions));
  }

  lemma BeginsSo(found: seq<Meta>, failed: set<string>, results: map<string, Result>, rows: seq<Row>,
                 versions: set<Version>)
    requires EachOnce(rows) && forall m :: m in found ==> m.name in results
    requires forall name :: Recorded(rows, SNAPPER, name) <==> Entered(Among(found, failed), name)
    ensures Begins(found, failed, results, View(rows, versions)) && AllFound(View(rows, versions), results)
  {
    var view := View(rows, versions);
    hide Recorded, Entered, Among, Shown, In;
    forall i | 0 <= i < |view| && view[i].row.repo == SNAPPER
      ensures Entered(found, view[i].row.name) && view[i].row.name !in failed && view[i].row.name in results
    {
      RecordedIsFound(found, failed, results, rows, i);
    }
    forall m | m in found && m.name !in failed
      ensures In(view, m.name)
    {
      FoundIsIn(found, failed, rows, versions, m);
    }
  }

  lemma SyncedAtStart(failed: set<string>, results: map<string, Result>, view: seq<Seen>, sure: bool)
    requires AllFound(view, results)
    ensures SyncedAt(view, failed, results, |view|, view, failed, sure)
  {
    assert view[|view|..] == [] && view[..|view|] == view;
  }

  lemma RecordedIsFound(found: seq<Meta>, failed: set<string>, results: map<string, Result>, rows: seq<Row>, i: nat)
    requires i < |rows| && rows[i].repo == SNAPPER && forall m :: m in found ==> m.name in results
    requires Recorded(rows, SNAPPER, rows[i].name) ==> Entered(Among(found, failed), rows[i].name)
    ensures Entered(found, rows[i].name) && rows[i].name !in failed && rows[i].name in results
  {
    assert Recorded(rows, SNAPPER, rows[i].name);
    EnteredAmong(found, failed, rows[i].name);
    var k :| 0 <= k < |found| && found[k].name == rows[i].name;
    assert found[k] in found;
  }

  lemma FoundIsIn(found: seq<Meta>, failed: set<string>, rows: seq<Row>, versions: set<Version>, m: Meta)
    requires m in found && m.name !in failed
    requires Entered(Among(found, failed), m.name) ==> Recorded(rows, SNAPPER, m.name)
    ensures In(View(rows, versions), m.name)
  {
    var view := View(rows, versions);
    var k :| 0 <= k < |found| && found[k] == m;
    EnteredAmong(found, failed, m.name);
    var i :| 0 <= i < |rows| && rows[i].repo == SNAPPER && rows[i].name == m.name;
    assert view[i].row == rows[i];
  }

  /** The newest snapshot due, in a view of what has not been tried and what has. */
  lemma NewestUntried(view: seq<Seen>, results: map<string, Result>, p: nat, rows: seq<Row>, versions: set<Version>,
                      sure: bool)
    requires AllFound(view, results) && p <= |view|
    requires Stands(view, p, Settled(view, results, p), View(rows, versions), sure)
    ensures var s := NewestDue(rows);
            && s <= p && (forall i :: s <= i < p ==> !Due(view[i].row))
            && (s > 0 ==> Due(view[s - 1].row) && view[s - 1].row == rows[s - 1])
  {
    var now, left := View(rows, versions), Settled(view, results, p);
    NoneDue(view, results, p);
    forall i | p <= i < |now|
      ensures !Due(rows[i])
    {
      assert now[i] == now[p..][i - p] && left[i - p] in left;
    }
    forall i | 0 <= i < p
      ensures rows[i] == view[i].row
    {
      assert now[i] == now[..p][i] && view[i] == view[..p][i];
    }
  }

  /** What trying the newest snapshot outstanding comes to, or finding none. */
  lemma {:induction false} TryNext(failed: set<string>, results: map<string, Result>, view: seq<Seen>, p: nat,
                                   rows: seq<Row>, versions: set<Version>, nowFailed: set<string>, s: nat,
                                   afterRows: seq<Row>, after: set<Version>, afterFailed: set<string>, sure: bool)
    requires AllFound(view, results) && p <= |view| && InRange(versions, |rows|)
    requires SyncedAt(view, failed, results, p, View(rows, versions), nowFailed, sure)
    requires sure ==> Sure(results, rows, versions)
    requires Ran(results, rows, versions, nowFailed, s, afterRows, after, afterFailed)
    ensures s <= p && forall i :: s <= i < p ==> !Due(view[i].row)
    ensures s > 0 ==>
              Due(view[s - 1].row) && TriedAt(view, failed, results, s - 1, View(afterRows, after), afterFailed, sure)
    ensures s == 0 ==>
              && Like(View(rows, versions), Settled(view, results, 0), sure)
              && nowFailed == failed + Failures(view, results, 0)
    ensures sure ==> Sure(results, afterRows, after)
  {
    hide Settled, Failures, Tried, View, AllFound, Due, NewestDue, Sure, Stands, AfterTrying;
    hide ReadTo, RemovedTo, InRange;
    var now, left := View(rows, versions), Settled(view, results, p);
    NewestUntried(view, results, p, rows, versions, sure);
    SettledJoins(view, results, s, p);
    FailuresJoin(view, results, s, p);
    if s > 0 {
      RanTries(results, rows, versions, nowFailed, s, afterRows, after, afterFailed, sure);
      FailuresNext(view, results, s - 1);
      NextStands(view, p, left, now, s - 1, results[view[s - 1].row.name], View(afterRows, after), sure);
    } else {
      StandsAll(view, p, left, now, sure);
      assert view[0..p] == view[..p];
    }
  }

  lemma {:induction false} NextStands(view: seq<Seen>, p: nat, left: seq<Seen>, now: seq<Seen>, q: nat, result: Result,
                                      after: seq<Seen>, sure: bool)
    requires q < p <= |view| && Stands(view, p, left, now, sure) && AfterTrying(now, q, result, after, sure)
    ensures Stands(view, q, Tried(view[q], Before(view, q), result, false) + (view[q + 1..p] + left), after, sure)
  {
    hide Tried, Like;
    assert now[q] == now[..p][q] && view[q] == view[..p][q] && (q > 0 ==> now[q - 1] == now[..p][q - 1]);
    assert q > 0 ==> view[q - 1] == view[..p][q - 1];
    var here := Tried(view[q], Before(view, q), result, false);
    assert here == Tried(now[q], Before(now, q), result, false);
    assert now[..q] == now[..p][..q] && view[..q] == view[..p][..q];
    assert now[q + 1..] == now[..p][q + 1..] + now[p..] && view[..p][q + 1..] == view[q + 1..p];
    LikeAfter(view[q + 1..p], now[p..], left, sure);
    LikeAfter(here, now[q + 1..], view[q + 1..p] + left, sure);
    LikeThrough(after[q..], here + now[q + 1..], here + (view[q + 1..p] + left), sure);
  }

  lemma NoneDue(view: seq<Seen>, results: map<string, Result>, p: nat)
    requires p <= |view| && AllFound(view, results)
    ensures forall x :: x in Settled(view, results, p) ==> !Due(x.row)
  {
    forall x | x in Settled(view, results, p)
      ensures !Due(x.row)
    {
      var i := SettledFrom(view, results, p, x);
    }
  }

  lemma FailuresJoin(view: seq<Seen>, results: map<string, Result>, s: nat, p: nat)
    requires s <= p <= |view| && AllFound(view, results) && forall i :: s <= i < p ==> !Due(view[i].row)
    ensures Failures(view, results, s) == Failures(view, results, p)
  {
  }

  lemma FailuresNext(view: seq<Seen>, results: map<string, Result>, p: nat)
    requires p < |view| && AllFound(view, results) && Due(view[p].row)
    ensures Failures(view, results, p) ==
            Failures(view, results, p + 1) + if results[view[p].row.name].Fails? then {view[p].row.name} else {}
  {
  }

  /** The sync of the next job leaves the rest, and brings in nothing. */
  lemma SyncsAgain(found: seq<Meta>, failed: set<string>, results: map<string, Result>, view: seq<Seen>, p: nat,
                   rows: seq<Row>, versions: set<Version>, nowFailed: set<string>, left: set<Version>,
                   afterRows: seq<Row>, after: set<Version>, sure: bool)
    requires Begins(found, failed, results, view) && AllFound(view, results) && p < |view|
    requires TriedAt(view, failed, results, p, View(rows, versions), nowFailed, sure)
    requires Matched(rows, versions, SNAPPER, Among(found, nowFailed), left, afterRows, after)
    requires sure ==> Sure(results, rows, versions)
    ensures SyncedAt(view, failed, results, p, View(afterRows, after), nowFailed, sure)
    ensures sure ==> Sure(results, afterRows, after)
  {
    var entries := Among(found, nowFailed);
    var keep := Wanted(rows, SNAPPER, entries);
    var kept := Surviving(rows, keep);
    assert RemovedTo(versions, keep, left) && nowFailed == failed + Failures(view, results, p);
    var now := View(rows, versions);
    hide Begins, RemovedTo, Settled, Failures, TriedAt, Surviving, Entered, Sure, Stands, In;
    ViewSurvives(rows, versions, keep, left);
    SurvivingMatches(rows, now, entries);
    MatchingTried(found, failed, results, view, p, now, nowFailed, sure);
    if sure {
      SureRemoves(results, rows, versions, keep, left);
    }
    StandsAll(view, p, Settled(view, results, p), View(kept, left), sure);
    forall m | m in entries
      ensures Recorded(kept, SNAPPER, m.name)
    {
      var k :| 0 <= k < |entries| && entries[k] == m;
      assert Entered(entries, m.name) by {
        EnteredAt(entries, k);
      }
      NothingMissing(found, failed, results, view, p, nowFailed, m.name);
      InIsRecorded(kept, left, view[..p] + Settled(view, results, p), m.name, sure);
    }
    NoneMissing(kept, entries);
  }

  lemma NoneMissing(rows: seq<Row>, entries: seq<Meta>)
    requires forall m :: m in entries ==> Recorded(rows, SNAPPER, m.name)
    ensures Missing(rows, SNAPPER, entries) == []
  {
    hide Recorded;
  }

  lemma EnteredAt(entries: seq<Meta>, k: nat)
    requires k < |entries|
    ensures Entered(entries, entries[k].name)
  {
  }

  lemma InIsRecorded(rows: seq<Row>, versions: set<Version>, meant: seq<Seen>, name: string, sure: bool)
    requires In(meant, name) && Like(View(rows, versions), meant, sure)
    ensures Recorded(rows, SNAPPER, name)
  {
    var i :| 0 <= i < |meant| && meant[i].row.repo == SNAPPER && meant[i].row.name == name;
    assert rows[i] == meant[i].row;
  }

  /** A snapshot that failed and could not be taken out is still due. */
  lemma StuckIsDue(view: seq<Seen>, results: map<string, Result>, p: nat, rows: seq<Row>, versions: set<Version>,
                   sure: bool)
    requires AllFound(view, results) && p < |view| && Due(view[p].row)
    requires Stands(view, p, Tried(view[p], Before(view, p), results[view[p].row.name], false) +
                             Settled(view, results, p + 1), View(rows, versions), sure)
    ensures results[view[p].row.name] == Fails(false) ==> p < |rows| && Due(rows[p])
  {
    if results[view[p].row.name] == Fails(false) {
      assert View(rows, versions)[p..][0].row == view[p].row;
    }
  }

  /** Once nothing is stale, there is nothing left to try. */
  lemma NothingLeft(found: seq<Meta>, failed: set<string>, results: map<string, Result>, view: seq<Seen>, p: nat,
                    rows: seq<Row>, versions: set<Version>, nowFailed: set<string>, sure: bool)
    requires Begins(found, failed, results, view) && AllFound(view, results) && p < |view|
    requires TriedAt(view, failed, results, p, View(rows, versions), nowFailed, sure)
    requires forall i :: 0 <= i < |rows| ==> !Due(rows[i])
    ensures Like(View(rows, versions), Settled(view, results, 0), sure) &&
            nowFailed == failed + Failures(view, results, 0)
    ensures forall i :: 0 <= i < p ==> !Due(view[i].row)
  {
    hide Settled, Failures, Begins, Like, Due;
    var now, result := View(rows, versions), results[view[p].row.name];
    var rest := Tried(view[p], Before(view, p), result, false) + Settled(view, results, p + 1);
    forall i | 0 <= i < p
      ensures !Due(view[i].row)
    {
      assert now[..p][i] == view[..p][i] && now[i].row == rows[i];
    }
    StuckIsDue(view, results, p, rows, versions, sure);
    SettledNext(view, results, p);
    SettledJoins(view, results, 0, p);
    FailuresJoin(view, results, 0, p);
    assert view[0..p] == view[..p];
    StandsAll(view, p, rest, now, sure);
  }

  lemma NotStale(found: seq<Meta>, failed: set<string>, rows: seq<Row>)
    requires forall name :: Recorded(rows, SNAPPER, name) <==> Entered(Among(found, failed), name)
    requires forall i :: 0 <= i < |rows| ==> !Due(rows[i])
    ensures !Stale(found, failed, rows)
  {
    forall i | 0 <= i < |rows| && rows[i].repo == SNAPPER
      ensures Entered(Among(found, failed), rows[i].name)
    {
      assert Recorded(rows, SNAPPER, rows[i].name);
    }
    forall i | 0 <= i < |found| && found[i].name !in failed
      ensures Recorded(rows, SNAPPER, found[i].name)
    {
      EnteredAmong(found, failed, found[i].name);
    }
  }

  lemma StaleIfDue(found: seq<Meta>, failed: set<string>, rows: seq<Row>)
    requires !Stale(found, failed, rows)
    ensures forall i :: 0 <= i < |rows| ==> !Due(rows[i])
  {
  }

  /** The snapshots from the `p`th archive on, newest first, each once. */
  ghost predicate TriedTo(rows: seq<Row>, p: nat, tried: seq<nat>) {
    && (forall i, j :: 0 <= i < j < |tried| ==> tried[i] > tried[j])
    && (forall i :: i in tried <==> p <= i < |rows| && Due(rows[i]))
  }

  lemma TriedNone(rows: seq<Row>)
    ensures TriedTo(rows, |rows|, [])
  {
  }

  lemma TriedMore(rows: seq<Row>, p: nat, tried: seq<nat>, s: nat)
    requires TriedTo(rows, p, tried) && s <= p <= |rows|
    requires (s > 0 ==> Due(rows[s - 1])) && forall i :: s <= i < p ==> !Due(rows[i])
    ensures s > 0 ==> TriedTo(rows, s - 1, tried + [s - 1])
    ensures s == 0 ==> TriedTo(rows, 0, tried)
  {
    assert forall i :: 0 <= i < |tried| ==> tried[i] in tried;
  }

  // ---- The loop's progress ----

  /** Either every snapshot has been tried and the catalogue matches what is
      wanted, or the `p`th has just been tried. */
  ghost predicate Progress(found: seq<Meta>, failed: set<string>, results: map<string, Result>, view: seq<Seen>, p: nat,
                           done: bool, rows: seq<Row>, versions: set<Version>, nowFailed: set<string>, sure: bool)
    requires AllFound(view, results)
  {
    && (sure ==> Sure(results, rows, versions))
    && if done then
         && !Stale(found, nowFailed, rows)
         && Like(View(rows, versions), Settled(view, results, 0), sure)
         && nowFailed == failed + Failures(view, results, 0)
       else p < |view| && TriedAt(view, failed, results, p, View(rows, versions), nowFailed, sure)
  }

  lemma StillGoing(found: seq<Meta>, failed: set<string>, results: map<string, Result>, view: seq<Seen>, p: nat,
                   done: bool, rows: seq<Row>, versions: set<Version>, nowFailed: set<string>, sure: bool)
    requires AllFound(view, results)
    requires Progress(found, failed, results, view, p, done, rows, versions, nowFailed, sure)
    requires Stale(found, nowFailed, rows)
    ensures !done && p < |view| && TriedAt(view, failed, results, p, View(rows, versions), nowFailed, sure)
    ensures sure ==> Sure(results, rows, versions)
  {
    hide Stale, View, Settled, Failures, TriedAt, Sure, Like;
  }

  lemma FirstJob(found: seq<Meta>, failed: set<string>, results: map<string, Result>, rows: seq<Row>,
                 versions: set<Version>, s: nat, afterRows: seq<Row>, after: set<Version>, afterFailed: set<string>,
                 sure: bool) returns (p: nat)
    requires InRange(versions, |rows|) && sure == Sure(results, rows, versions)
    requires var view := View(rows, versions);
             && Begins(found, failed, results, view) && AllFound(view, results)
             && SyncedAt(view, failed, results, |view|, view, failed, sure)
    requires forall name :: Recorded(rows, SNAPPER, name) <==> Entered(Among(found, failed), name)
    requires Ran(results, rows, versions, failed, s, afterRows, after, afterFailed)
    ensures Progress(found, failed, results, View(rows, versions), p, s == 0, afterRows, after, afterFailed, sure)
    ensures s > 0 ==> p == s - 1
    ensures TriedTo(rows, if s == 0 then 0 else p, if s == 0 then [] else [s - 1])
  {
    hide Stale, Settled, Failures, TriedAt, TriedTo, Begins, SyncedAt, Recorded, Entered, Sure, Like, ReadTo, RemovedTo;
    hide InRange;
    var view := View(rows, versions);
    p := if s == 0 then 0 else s - 1;
    TryNext(failed, results, view, |view|, rows, versions, failed, s, afterRows, after, afterFailed, sure);
    TriedNone(rows);
    TriedMore(rows, |rows|, [], s);
    if s == 0 {
      NotStale(found, failed, rows);
    }
    assert [] + [s - 1] == [s - 1];
  }

  lemma NextJob(found: seq<Meta>, failed: set<string>, results: map<string, Result>, view: seq<Seen>, p: nat,
                rows: seq<Row>, versions: set<Version>, nowFailed: set<string>, left: set<Version>,
                syncedRows: seq<Row>, synced: set<Version>, s: nat, afterRows: seq<Row>, after: set<Version>,
                afterFailed: set<string>, first: seq<Row>, tried: seq<nat>, sure: bool)
    requires Begins(found, failed, results, view) && AllFound(view, results) && p < |view|
    requires TriedAt(view, failed, results, p, View(rows, versions), nowFailed, sure)
    requires Matched(rows, versions, SNAPPER, Among(found, nowFailed), left, syncedRows, synced)
    requires forall name :: Recorded(syncedRows, SNAPPER, name) <==> Entered(Among(found, nowFailed), name)
    requires Ran(results, syncedRows, synced, nowFailed, s, afterRows, after, afterFailed)
    requires InRange(synced, |syncedRows|) && (sure ==> Sure(results, rows, versions))
    requires |first| == |view| && (forall i :: 0 <= i < |first| ==> view[i].row == first[i]) && TriedTo(first, p, tried)
    ensures s == 0 ==>
              && Progress(found, failed, results, view, p, true, afterRows, after, afterFailed, sure)
              && TriedTo(first, 0, tried)
    ensures s > 0 ==>
              && s - 1 < p && Progress(found, failed, results, view, s - 1, false, afterRows, after, afterFailed, sure)
              && TriedTo(first, s - 1, tried + [s - 1])
  {
    hide Stale, Settled, Failures, TriedTo, Begins, Recorded, Entered, Matched, SyncedAt, TriedAt, Sure, Like, ReadTo;
    hide RemovedTo, InRange;
    SyncsAgain(found, failed, results, view, p, rows, versions, nowFailed, left, syncedRows, synced, sure);
    TryNext(failed, results, view, p, syncedRows, synced, nowFailed, s, afterRows, after, afterFailed, sure);
    TriedMore(first, p, tried, s);
    if s == 0 {
      NotStale(found, nowFailed, syncedRows);
    }
  }

  lemma AllTried(found: seq<Meta>, failed: set<string>, results: map<string, Result>, view: seq<Seen>, p: nat,
                 done: bool, rows: seq<Row>, versions: set<Version>, nowFailed: set<string>, first: seq<Row>,
                 tried: seq<nat>, sure: bool)
    requires Begins(found, failed, results, view) && AllFound(view, results)
    requires Progress(found, failed, results, view, p, done, rows, versions, nowFailed, sure) &&
             !Stale(found, nowFailed, rows)
    requires |first| == |view| && (forall i :: 0 <= i < |first| ==> view[i].row == first[i])
    requires TriedTo(first, if done then 0 else p, tried)
    ensures Like(View(rows, versions), Settled(view, results, 0), sure) &&
            nowFailed == failed + Failures(view, results, 0)
    ensures TriedTo(first, 0, tried)
  {
    if !done {
      StaleIfDue(found, nowFailed, rows);
      NothingLeft(found, failed, results, view, p, rows, versions, nowFailed, sure);
      hide TriedTo;
      TriedMore(first, p, tried, 0);
    }
  }

  // ---- What the snapshots show ----

  /** The first sync leaves nothing shown of the snapshots to be read if and only
      if no two newcomers are next to each other in a gap that a row spans. */
  lemma DueBlankIff(kept: seq<Row>, left: set<Version>, missing: seq<Meta>)
    requires InRange(left, |kept|) && Chronological(Slots(kept)) && DueBlank(View(kept, left))
    ensures DueBlank(View(Stack(Order(kept, missing), SNAPPER), Slotted(kept, left, missing))) <==>
            Clear(left, Known(Order(kept, missing)))
  {
    var order := Order(kept, missing);
    var rows, after := Stack(order, SNAPPER), Slotted(kept, left, missing);
    SlottedIsSplit(kept, left, missing);
    NewcomersBlankIff(left, Known(order));
    hide Order, Chronological, Slots, Slotted, Shown, Clear, SplitTo, InRange;
    forall i | 0 <= i < |order|
      ensures order[i].Newcomer? ==> Due(rows[i])
      ensures order[i].Existing? && Due(rows[i]) ==> Shown(after, i + 1) == {}
    {
      var k := StackedRow(kept, left, missing, SNAPPER, i);
      assert k < |kept| ==> View(kept, left)[k] == Seen(kept[k], Shown(left, k + 1));
    }
    BlankByRows(order, rows, after);
  }

  lemma BlankByRows(order: seq<Slot>, rows: seq<Row>, after: set<Version>)
    requires |rows| == |order|
    requires forall i :: 0 <= i < |order| && order[i].Newcomer? ==> Due(rows[i])
    requires forall i :: 0 <= i < |order| && order[i].Existing? && Due(rows[i]) ==> Shown(after, i + 1) == {}
    ensures DueBlank(View(rows, after)) <==> NewcomersBlank(after, Known(order))
  {
    hide Shown, Due;
    var view := View(rows, after);
    if DueBlank(view) {
      forall s | 1 <= s <= |order| && !Known(order)[s - 1]
        ensures Shown(after, s) == {}
      {
        assert view[s - 1].held == {};
      }
    }
    if NewcomersBlank(after, Known(order)) {
      forall i | 0 <= i < |view| && Due(view[i].row)
        ensures view[i].held == {}
      {
        assert !Known(order)[i] ==> Shown(after, i + 1) == {};
      }
    }
  }

  /** After a sync of a catalogue that was sure, it is sure if and only if no row
      spans two newcomers that are next to each other. */
  lemma SureIff(results: map<string, Result>, kept: seq<Row>, left: set<Version>, missing: seq<Meta>)
    requires Sure(results, kept, left) && InRange(left, |kept|) && Chronological(Slots(kept))
    ensures Sure(results, Stack(Order(kept, missing), SNAPPER), Slotted(kept, left, missing)) <==>
            Clear(left, Known(Order(kept, missing)))
  {
    var history: seq<Listing> :| |history| == |kept| && Encodes(left, history);
    var order := Order(kept, missing);
    SlottedEncodes(kept, left, missing, history);
    DueBlankIff(kept, left, missing);
    hide Encodes, Order, Chronological, Slots, Slotted, DueBlank, Clear, Orderly, InRange, Partly;
    assert |Partly(history, Known(order), |order|)| == |Stack(order, SNAPPER)|;
    assert Encoded(Stack(order, SNAPPER), Slotted(kept, left, missing));
  }

  /** What the loop leaves of an archive that stays: a snapshot that was read, or
      the archive as it was; shown no more than what is meant, and all of it, if
      the catalogue was sure. */
  lemma LoopLeaves(view: seq<Seen>, results: map<string, Result>, now: seq<Seen>, sure: bool, i: nat) returns (x: Seen)
    requires AllFound(view, results) && Like(now, Settled(view, results, 0), sure) && i < |view|
    requires Due(view[i].row) ==> results[view[i].row.name].Reads?
    ensures x in now
    ensures var meant :=
              if Due(view[i].row)
              then Walked(view[i], Before(view, i), results[view[i].row.name].items, results[view[i].row.name].covered)
              else view[i];
            x.row == meant.row && x.held <= meant.held && (sure ==> x == meant)
  {
    var meant := SettledHolds(view, results, 0, i);
    var k :| 0 <= k < |now| && Settled(view, results, 0)[k] == meant;
    x := now[k];
  }

  /** Where the catalogue was sure, a snapshot that reads shows just what was
      walked of its folders, and outside them what the archive before it shows;
      which is nothing, if that is a snapshot that was waiting too. */
  lemma SnapshotShows(view: seq<Seen>, results: map<string, Result>, now: seq<Seen>, i: nat) returns (x: Seen)
    requires AllFound(view, results) && DueBlank(view) && i < |view| && Due(view[i].row)
    requires Like(now, Settled(view, results, 0), true) && results[view[i].row.name].Reads?
    ensures x in now && x.row == view[i].row.(pending := false)
    ensures var result := results[view[i].row.name];
            x.held == Says(Gots(result.items)) +
                      if i == 0 || Due(view[i - 1].row) then {} else Unspoken(view[i - 1].held, result.covered)
  {
    x := LoopLeaves(view, results, now, true, i);
    hide Says, Gots, Settled;
  }

  /** Right after its job, a newcomer shows just what its listing and the archive
      before it say if and only if it is not every second of its gap, or what spans
      the gap is in its listing. */
  lemma NewcomerShowsIff(kept: seq<Row>, left: set<Version>, missing: seq<Meta>, s: nat, items: seq<Item>,
                         covered: set<int>, after: set<Version>)
    requires InRange(left, |kept|) && Chronological(Slots(kept))
    requires var order := Order(kept, missing);
             1 <= s <= |order| && order[s - 1].Newcomer? &&
             ScopedTo(Slotted(kept, left, missing), |order|, s, Gots(items), covered, after)
    ensures var known, slotted := Known(Order(kept, missing)), Slotted(kept, left, missing);
            Shown(after, s) == Says(Gots(items)) + Unspoken(Shown(slotted, s - 1), covered) <==>
            NewBefore(known, s) % 2 == 0 || Spanning(left, Rank(known, s)) <= Says(Gots(items))
  {
    hide Order, Chronological, Slots, Slotted, ScopedTo, Shown, InRange, Says, Gots, Spanning, Rank;
    var order := Order(kept, missing);
    var known, slotted := Known(order), Slotted(kept, left, missing);
    SlottedInRange(kept, left, missing);
    ScopedShows(slotted, |order|, s, Gots(items), covered, after, s);
    SlottedShows(kept, left, missing, s);
    if NewBefore(known, s) % 2 == 1 {
      SlottedShows(kept, left, missing, s - 1);
      assert Unspoken(Shown(slotted, s - 1), covered) == {};
    }
  }

  /** Two snapshots of nothing that changed, after a backup: the newer, read first,
      comes to show nothing of what the backup holds. */
  lemma NewerShowsNothing(backup: Row, older: Row, newer: Row, held: set<Held>)
    requires !Due(backup) && Due(older) && Due(newer) && older.name != newer.name
    ensures var view := [Seen(backup, held), Seen(older, {}), Seen(newer, {})];
            var results := map[older.name := Reads([], {}), newer.name := Reads([], {})];
            && AllFound(view, results)
            && Settled(view, results, 0) ==
               [Seen(backup, held), Seen(older.(pending := false), held), Seen(newer.(pending := false), {})]
  {
    var view := [Seen(backup, held), Seen(older, {}), Seen(newer, {})];
    var results := map[older.name := Reads([], {}), newer.name := Reads([], {})];
    assert Says(Gots([])) == {} && Unspoken(held, {}) == held && Unspoken({}, {}) == {};
    assert Settled(view, results, 3) == [];
    assert Walked(view[2], view[1].held, [], {}) == Seen(newer.(pending := false), {});
    assert Settled(view, results, 2) == [Seen(newer.(pending := false), {})];
    assert Walked(view[1], view[0].held, [], {}) == Seen(older.(pending := false), held);
    assert Settled(view, results, 1) == [Seen(older.(pending := false), held), Seen(newer.(pending := false), {})];
  }
}
