/** Removing archives from the catalogue, and merging the rows that removal
    makes adjacent (crates/backtrack-core/src/index/writer.rs). */
module IndexRemove {
  import opened Index

  // ---- Which archives stay, and their new numbers ----

  /** How many of the first `s` archives stay. */
  function Rank(keep: seq<bool>, s: int): nat
    requires 0 <= s <= |keep|
    decreases s
  {
    if s == 0 then 0 else Rank(keep, s - 1) + (if keep[s - 1] then 1 else 0)
  }

  /** What the archives that stay held. */
  function Surviving<T>(history: seq<T>, keep: seq<bool>): (left: seq<T>)
    requires |history| == |keep|
    ensures |left| == Rank(keep, |keep|)
    decreases |keep|
  {
    if keep == [] then []
    else
      var n := |keep| - 1;
      RankOfPart(keep, n, n);
      Surviving(history[..n], keep[..n]) + (if keep[n] then [history[n]] else [])
  }

  lemma {:induction false} RankOfPart(keep: seq<bool>, n: nat, s: nat)
    requires s <= n <= |keep|
    ensures Rank(keep[..n], s) == Rank(keep, s)
    decreases s
  {
    if s > 0 {
      RankOfPart(keep, n, s - 1);
    }
  }

  lemma {:induction false} RankGrows(keep: seq<bool>, a: int, b: int)
    requires 0 <= a <= b <= |keep|
    ensures Rank(keep, a) <= Rank(keep, b)
    decreases b
  {
    if a < b {
      RankGrows(keep, a, b - 1);
    }
  }

  lemma {:induction false} AllSurvive<T>(history: seq<T>, keep: seq<bool>)
    requires |history| == |keep| && forall i :: 0 <= i < |keep| ==> keep[i]
    ensures Surviving(history, keep) == history && Rank(keep, |keep|) == |keep|
    decreases |keep|
  {
    if keep != [] {
      var n := |keep| - 1;
      AllSurvive(history[..n], keep[..n]);
      RankOfPart(keep, n, n);
      assert history == history[..n] + [history[n]];
    }
  }

  /** The archive that gets number `k`. */
  lemma {:induction false} Survivor<T>(history: seq<T>, keep: seq<bool>, k: int) returns (s: int)
    requires |history| == |keep| && 1 <= k <= Rank(keep, |keep|)
    ensures 1 <= s <= |keep| && keep[s - 1] && Rank(keep, s) == k
    ensures Surviving(history, keep)[k - 1] == history[s - 1]
    decreases |keep|
  {
    var n := |keep| - 1;
    RankOfPart(keep, n, n);
    if keep[n] && k == Rank(keep, n) + 1 {
      s := n + 1;
    } else {
      s := Survivor(history[..n], keep[..n], k);
      RankOfPart(keep, n, s);
    }
  }

  /** A row's archives that stay, by their new numbers: its least and greatest
      survivors, where it has any. */
  predicate Lives(v: Version, keep: seq<bool>)
    requires 1 <= v.first <= v.last <= |keep|
  {
    Rank(keep, v.first - 1) < Rank(keep, v.last)
  }

  function Renumber(v: Version, keep: seq<bool>): Version
    requires 1 <= v.first <= v.last <= |keep|
  {
    Version(v.path, Rank(keep, v.first - 1) + 1, Rank(keep, v.last), v.content)
  }

  function Renumbered(versions: set<Version>, keep: seq<bool>): set<Version>
    requires InRange(versions, |keep|)
  {
    set v | v in versions && Lives(v, keep) :: Renumber(v, keep)
  }

  lemma EncodedInRange(versions: set<Version>, history: seq<Listing>)
    requires Encodes(versions, history)
    ensures InRange(versions, |history|)
  {
    forall v | v in versions
      ensures 1 <= v.first <= v.last <= |history|
    {
      assert Has(history, v.first, v.path, v.content) && Has(history, v.last, v.path, v.content);
    }
  }

  // ---- Rows that tell the truth, though not as far as they might ----

  /** Rows that say only what is so, between them say all of it, and do not
      overlap: an encoding, but that it may be in pieces. */
  ghost predicate Tiles(rows: set<Version>, history: seq<Listing>) {
    && (forall v :: v in rows ==>
          v.first <= v.last && forall s :: v.first <= s <= v.last ==> Has(history, s, v.path, v.content))
    && (forall s, path, content :: Has(history, s, path, content) ==> Covered(rows, s, path, content))
    && (forall a, b :: a in rows && b in rows && Overlap(a, b) ==> a == b)
  }

  ghost predicate Covered(rows: set<Version>, s: int, path: int, content: Content) {
    exists v :: v in rows && v.path == path && v.content == content && Covers(v, s)
  }

  ghost predicate Overlap(a: Version, b: Version) {
    a.path == b.path && a.first <= b.last && b.first <= a.last
  }

  lemma RenumberedTiles(versions: set<Version>, history: seq<Listing>, keep: seq<bool>)
    requires Encodes(versions, history) && |history| == |keep|
    ensures InRange(versions, |keep|)
    ensures Tiles(Renumbered(versions, keep), Surviving(history, keep))
  {
    EncodedInRange(versions, history);
    var rows, left := Renumbered(versions, keep), Surviving(history, keep);
    forall w | w in rows
      ensures w.first <= w.last && forall s :: w.first <= s <= w.last ==> Has(left, s, w.path, w.content)
    {
      var v :| v in versions && Lives(v, keep) && w == Renumber(v, keep);
      RenumberedIsSo(history, keep, v);
    }
    forall k, path, content | Has(left, k, path, content)
      ensures Covered(rows, k, path, content)
    {
      var v := RenumberedCovers(versions, history, keep, k, path, content);
      assert Renumber(v, keep) in rows;
    }
    forall a, b | a in rows && b in rows && Overlap(a, b)
      ensures a == b
    {
      var v :| v in versions && Lives(v, keep) && a == Renumber(v, keep);
      var u :| u in versions && Lives(u, keep) && b == Renumber(u, keep);
      RenumberedApart(history, keep, v, u);
    }
  }

  lemma RenumberedIsSo(history: seq<Listing>, keep: seq<bool>, v: Version)
    requires |history| == |keep| && 1 <= v.first <= v.last <= |keep| && IsRun(history, v) && Lives(v, keep)
    ensures var w := Renumber(v, keep);
            w.first <= w.last &&
            forall k :: w.first <= k <= w.last ==> Has(Surviving(history, keep), k, v.path, v.content)
  {
    RankGrows(keep, v.last, |keep|);
    var w := Renumber(v, keep);
    forall k | w.first <= k <= w.last
      ensures Has(Surviving(history, keep), k, v.path, v.content)
    {
      var s := SurvivorIn(history, keep, v, k);
      assert Has(history, s, v.path, v.content);
    }
  }

  lemma RenumberedCovers(versions: set<Version>, history: seq<Listing>, keep: seq<bool>, k: int, path: int,
                         content: Content)
    returns (v: Version)
    requires Encodes(versions, history) && |history| == |keep| && InRange(versions, |keep|)
    requires Has(Surviving(history, keep), k, path, content)
    ensures v in versions && v.path == path && v.content == content
    ensures Lives(v, keep) && Covers(Renumber(v, keep), k)
  {
    var s := Survivor(history, keep, k);
    v := RunThrough(history, s, path, content);
    assert v in versions;
    RankGrows(keep, v.first - 1, s - 1);
    RankGrows(keep, s, v.last);
  }

  lemma RenumberedApart(history: seq<Listing>, keep: seq<bool>, v: Version, u: Version)
    requires |history| == |keep| && IsRun(history, v) && IsRun(history, u)
    requires 1 <= v.first <= v.last <= |keep| && 1 <= u.first <= u.last <= |keep| && Lives(v, keep) && Lives(u, keep)
    requires Overlap(Renumber(v, keep), Renumber(u, keep))
    ensures v == u
  {
    var a, b := Renumber(v, keep), Renumber(u, keep);
    var k := if a.first <= b.first then b.first else a.first;
    RankGrows(keep, v.last, |keep|);
    RankGrows(keep, u.last, |keep|);
    var s := SurvivorIn(history, keep, v, k);
    var t := SurvivorIn(history, keep, u, k);
    SameSurvivor(keep, s, t);
    OneRun(history, v, u, s);
  }

  lemma SurvivorIn<T>(history: seq<T>, keep: seq<bool>, v: Version, k: int) returns (s: int)
    requires |history| == |keep| && 1 <= v.first <= v.last <= |keep|
    requires Rank(keep, v.first - 1) < k <= Rank(keep, v.last) <= Rank(keep, |keep|)
    ensures Covers(v, s) && keep[s - 1] && Rank(keep, s) == k
    ensures Surviving(history, keep)[k - 1] == history[s - 1]
  {
    s := Survivor(history, keep, k);
    if s < v.first {
      RankGrows(keep, s, v.first - 1);
    }
    if s > v.last {
      RankGrows(keep, v.last, s - 1);
    }
  }

  /** Renumbered, rows show of the archives that stay what they showed. */
  lemma RenumberedShows(versions: set<Version>, keep: seq<bool>)
    requires InRange(versions, |keep|)
    ensures InRange(Renumbered(versions, keep), Rank(keep, |keep|))
    ensures Told(Renumbered(versions, keep), Rank(keep, |keep|)) == Surviving(Told(versions, |keep|), keep)
  {
    var rows, told := Renumbered(versions, keep), Told(versions, |keep|);
    forall w | w in rows
      ensures 1 <= w.first <= w.last <= Rank(keep, |keep|)
    {
      var v :| v in versions && Lives(v, keep) && w == Renumber(v, keep);
      RankGrows(keep, v.last, |keep|);
    }
    forall k | 1 <= k <= Rank(keep, |keep|)
      ensures Shown(rows, k) == Surviving(told, keep)[k - 1]
    {
      var s := Survivor(told, keep, k);
      forall v | v in versions
        ensures Lives(v, keep) && Covers(Renumber(v, keep), k) <==> Covers(v, s)
      {
        RenumberCovers(keep, v, s);
      }
      SameShown(versions, rows, keep, s, k);
    }
  }

  lemma RenumberCovers(keep: seq<bool>, v: Version, s: int)
    requires 1 <= v.first <= v.last <= |keep| && 1 <= s <= |keep| && keep[s - 1]
    ensures Lives(v, keep) && Covers(Renumber(v, keep), Rank(keep, s)) <==> Covers(v, s)
  {
    if s < v.first {
      RankGrows(keep, s, v.first - 1);
    } else if s <= v.last {
      RankGrows(keep, v.first - 1, s - 1);
      RankGrows(keep, s, v.last);
    } else {
      RankGrows(keep, v.last, s - 1);
    }
  }

  lemma SameShown(versions: set<Version>, rows: set<Version>, keep: seq<bool>, s: int, k: int)
    requires InRange(versions, |keep|) && rows == Renumbered(versions, keep)
    requires forall v :: v in versions ==> (Lives(v, keep) && Covers(Renumber(v, keep), k) <==> Covers(v, s))
    ensures Shown(rows, k) == Shown(versions, s)
  {
    forall h
      ensures h in Shown(rows, k) <==> h in Shown(versions, s)
    {
      if h in Shown(rows, k) {
        var w :| w in rows && Covers(w, k) && h == Held(w.path, w.content);
        var v :| v in versions && Lives(v, keep) && w == Renumber(v, keep);
        assert Covers(v, s);
      }
      if h in Shown(versions, s) {
        var v :| v in versions && Covers(v, s) && h == Held(v.path, v.content);
        assert Renumber(v, keep) in rows;
      }
    }
  }

  lemma SameSurvivor(keep: seq<bool>, s: int, t: int)
    requires 1 <= s <= |keep| && 1 <= t <= |keep| && keep[s - 1] && keep[t - 1] && Rank(keep, s) == Rank(keep, t)
    ensures s == t
  {
    if s < t {
      RankGrows(keep, s, t - 1);
    } else if t < s {
      RankGrows(keep, t, s - 1);
    }
  }

  // ---- Merging adjacent rows ----

  /** By path, and along each path. */
  predicate Sooner(a: Version, b: Version) {
    a.path < b.path || (a.path == b.path && a.first < b.first)
  }

  ghost predicate InOrder(rows: seq<Version>) {
    forall i, j :: 0 <= i < j < |rows| ==> !Sooner(rows[j], rows[i]) && rows[i] != rows[j]
  }

  /** Rows in order that do not overlap come one after another. */
  lemma InOrderApart(tiles: set<Version>, rows: seq<Version>, history: seq<Listing>, i: nat, j: nat)
    requires Tiles(tiles, history) && InOrder(rows) && (forall v :: v in rows <==> v in tiles) && i < j < |rows|
    ensures Sooner(rows[i], rows[j])
  {
    assert rows[i] in tiles && rows[j] in tiles;
    assert !Sooner(rows[j], rows[i]) && rows[i] != rows[j];
  }

  /** The rows read out in order, one after another. */
  method ReadOut(rows: set<Version>) returns (ordered: seq<Version>)
    ensures InOrder(ordered) && forall v :: v in ordered <==> v in rows
  {
    ordered := [];
    var rest := rows;
    while rest != {}
      invariant rest <= rows && InOrder(ordered)
      invariant forall v :: v in rows <==> v in ordered || v in rest
      invariant forall i, v :: 0 <= i < |ordered| && v in rest ==> !Sooner(v, ordered[i]) && v != ordered[i]
      decreases rest
    {
      var next :| next in rest;
      var others := rest - {next};
      while others != {}
        invariant next in rest && others <= rest
        invariant forall v :: v in rest ==> !Sooner(v, next) || v in others
        decreases others
      {
        var v :| v in others;
        others := others - {v};
        if Sooner(v, next) {
          next := v;
        }
      }
      ordered := ordered + [next];
      rest := rest - {next};
    }
  }

  predicate Mergeable(base: Version, last: int, next: Version) {
    next.path == base.path && next.first == last + 1 && next.content == base.content
  }

  /** Rows `start..end` are one after another, of one path and content. */
  ghost predicate Chain(rows: seq<Version>, start: nat, end: nat)
    requires start < end <= |rows|
  {
    && (forall k :: start <= k < end ==> rows[k].path == rows[start].path && rows[k].content == rows[start].content)
    && (forall k :: start < k < end ==> rows[k].first == rows[k - 1].last + 1)
  }

  function Merged(rows: seq<Version>, start: nat, end: nat): Version
    requires start < end <= |rows|
  {
    rows[start].(last := rows[end - 1].last)
  }

  /** What has been merged so far: runs, which between them hold the first `i`
      rows and nothing else. */
  ghost predicate MergedTo(out: set<Version>, rows: seq<Version>, i: nat, history: seq<Listing>)
    requires i <= |rows|
  {
    && (forall o :: o in out ==> IsRun(history, o))
    && (forall k :: 0 <= k < i ==> Within(out, rows[k]))
    && (forall o, s :: o in out && Covers(o, s) ==> From(rows, i, o.path, s))
  }

  ghost predicate Within(out: set<Version>, v: Version) {
    exists o :: o in out && o.path == v.path && o.content == v.content && o.first <= v.first && v.last <= o.last
  }

  ghost predicate From(rows: seq<Version>, i: nat, path: int, s: int)
    requires i <= |rows|
  {
    exists k :: 0 <= k < i && rows[k].path == path && Covers(rows[k], s)
  }

  lemma {:induction false} ChainCovers(rows: seq<Version>, start: nat, end: nat, s: int) returns (k: nat)
    requires start < end <= |rows| && Chain(rows, start, end) && Covers(Merged(rows, start, end), s)
    requires forall i :: start <= i < end ==> rows[i].first <= rows[i].last
    ensures start <= k < end && Covers(rows[k], s)
    decreases end
  {
    if start + 1 == end || s >= rows[end - 1].first {
      k := end - 1;
    } else {
      k := ChainCovers(rows, start, end - 1, s);
    }
  }

  lemma {:induction false} ChainHolds(rows: seq<Version>, start: nat, end: nat, k: nat)
    requires start <= k < end <= |rows| && Chain(rows, start, end)
    requires forall i :: start <= i < end ==> rows[i].first <= rows[i].last
    ensures rows[start].first <= rows[k].first && rows[k].last <= rows[end - 1].last
    decreases end
  {
    if k < end - 1 {
      ChainHolds(rows, start, end - 1, k);
    } else if start < k {
      ChainHolds(rows, start, k, k - 1);
    }
  }

  /** A chain that nothing follows or precedes merges into a run. */
  lemma ChainIsRun(tiles: set<Version>, rows: seq<Version>, out: set<Version>, start: nat, end: nat,
                   history: seq<Listing>)
    requires Tiles(tiles, history) && InOrder(rows) && (forall v :: v in rows <==> v in tiles)
    requires start < end <= |rows| && Chain(rows, start, end) && MergedTo(out, rows, start, history)
    requires end < |rows| ==> !Mergeable(rows[start], rows[end - 1].last, rows[end])
    ensures IsRun(history, Merged(rows, start, end))
  {
    var m := Merged(rows, start, end);
    ChainIsSo(tiles, rows, start, end, history);
    if Has(history, m.last + 1, m.path, m.content) {
      assert Covered(tiles, m.last + 1, m.path, m.content);
      var v :| v in tiles && v.path == m.path && v.content == m.content && Covers(v, m.last + 1);
      var x :| 0 <= x < |rows| && rows[x] == v;
      NextInChain(tiles, rows, start, end, x, history);
    }
    if Has(history, m.first - 1, m.path, m.content) {
      NoneBefore(tiles, rows, out, start, history);
    }
  }

  lemma ChainIsSo(tiles: set<Version>, rows: seq<Version>, start: nat, end: nat, history: seq<Listing>)
    requires Tiles(tiles, history) && (forall v :: v in rows <==> v in tiles)
    requires start < end <= |rows| && Chain(rows, start, end)
    ensures var m := Merged(rows, start, end);
            m.first <= m.last && forall s :: m.first <= s <= m.last ==> Has(history, s, m.path, m.content)
  {
    var m := Merged(rows, start, end);
    assert forall k :: 0 <= k < |rows| ==> rows[k] in tiles;
    ChainHolds(rows, start, end, start);
    forall s | m.first <= s <= m.last
      ensures Has(history, s, m.path, m.content)
    {
      var k := ChainCovers(rows, start, end, s);
    }
  }

  /** Nothing before a chain leads up to it: what is merged already would have
      gone on into it. */
  lemma NoneBefore(tiles: set<Version>, rows: seq<Version>, out: set<Version>, start: nat, history: seq<Listing>)
    requires Tiles(tiles, history) && InOrder(rows) && (forall v :: v in rows <==> v in tiles)
    requires start < |rows| && MergedTo(out, rows, start, history)
    ensures !Has(history, rows[start].first - 1, rows[start].path, rows[start].content)
  {
    var base := rows[start];
    assert base in tiles;
    if Has(history, base.first - 1, base.path, base.content) {
      assert Covered(tiles, base.first - 1, base.path, base.content);
      var v :| v in tiles && v.path == base.path && v.content == base.content && Covers(v, base.first - 1);
      var x :| 0 <= x < |rows| && rows[x] == v;
      assert x > start ==> Sooner(base, v);
      assert Within(out, rows[x]);
      var o :| o in out && o.path == v.path && o.content == v.content && o.first <= v.first && v.last <= o.last;
      assert Has(history, base.first, base.path, base.content);
      assert Covers(o, base.first);
      assert From(rows, start, o.path, base.first);
      var k :| 0 <= k < start && rows[k].path == o.path && Covers(rows[k], base.first);
      assert Overlap(rows[k], base);
    }
  }

  /** A row that takes up right after a chain is the one right after it. */
  lemma NextInChain(tiles: set<Version>, rows: seq<Version>, start: nat, end: nat, x: nat, history: seq<Listing>)
    requires Tiles(tiles, history) && InOrder(rows) && (forall v :: v in rows <==> v in tiles)
    requires start < end <= |rows| && Chain(rows, start, end) && x < |rows|
    requires rows[x].path == rows[start].path && rows[x].content == rows[start].content &&
             Covers(rows[x], rows[end - 1].last + 1)
    ensures end < |rows| && Mergeable(rows[start], rows[end - 1].last, rows[end])
  {
    var last := rows[end - 1];
    assert last in tiles && rows[x] in tiles && last.first <= last.last;
    assert last != rows[x];
    assert !Overlap(last, rows[x]);
    assert rows[x].first == last.last + 1;
    assert Sooner(last, rows[x]);
    assert x >= end;
    InOrderApart(tiles, rows, history, end - 1, end);
    if x > end {
      InOrderApart(tiles, rows, history, end, x);
    }
    assert rows[end] in tiles && !Overlap(last, rows[end]);
  }

  /** The first `i` rows, as a set. */
  function First(rows: seq<Version>, i: nat): set<Version>
    requires i <= |rows|
  {
    set k | 0 <= k < i :: rows[k]
  }

  lemma MergedShows(rows: seq<Version>, start: nat, end: nat, out: set<Version>, s: int)
    requires start < end <= |rows| && Chain(rows, start, end)
    requires forall i :: start <= i < end ==> rows[i].first <= rows[i].last
    requires Shown(out, s) == Shown(First(rows, start), s)
    ensures Shown(out + {Merged(rows, start, end)}, s) == Shown(First(rows, end), s)
  {
    var m := Merged(rows, start, end);
    forall h
      ensures h in Shown(out + {m}, s) <==> h in Shown(First(rows, end), s)
    {
      if h in Shown(out, s) {
        var v :| v in First(rows, start) && Covers(v, s) && h == Held(v.path, v.content);
        assert v in First(rows, end);
      }
      if Covers(m, s) {
        var k := ChainCovers(rows, start, end, s);
        assert rows[k] in First(rows, end);
      }
      if h in Shown(First(rows, end), s) {
        var v :| v in First(rows, end) && Covers(v, s) && h == Held(v.path, v.content);
        var k :| 0 <= k < end && v == rows[k];
        if k < start {
          assert v in First(rows, start);
        } else {
          ChainHolds(rows, start, end, k);
          assert m in out + {m};
        }
      }
    }
  }

  /** What has been merged so far shows what the first `i` rows do, and is on
      the way to the encoding if they are pieces of one. */
  ghost predicate ShowsTo(out: set<Version>, tiles: set<Version>, rows: seq<Version>, i: nat, n: nat,
                          history: seq<Listing>)
    requires i <= |rows|
  {
    && InRange(out, n)
    && (forall s :: Shown(out, s) == Shown(First(rows, i), s))
    && (Tiles(tiles, history) ==> MergedTo(out, rows, i, history))
  }

  lemma NoneMerged(tiles: set<Version>, rows: seq<Version>, n: nat, history: seq<Listing>)
    ensures ShowsTo({}, tiles, rows, 0, n, history)
  {
  }

  lemma OneMoreMerged(tiles: set<Version>, rows: seq<Version>, out: set<Version>, start: nat, end: nat, n: nat,
                      history: seq<Listing>)
    requires InOrder(rows) && InRange(tiles, n) && (forall v :: v in rows <==> v in tiles)
    requires start < end <= |rows| && Chain(rows, start, end) && ShowsTo(out, tiles, rows, start, n, history)
    requires end < |rows| ==> !Mergeable(rows[start], rows[end - 1].last, rows[end])
    ensures ShowsTo(out + {Merged(rows, start, end)}, tiles, rows, end, n, history)
  {
    assert forall k :: 0 <= k < |rows| ==> rows[k] in tiles;
    ChainHolds(rows, start, end, start);
    hide IsRun, MergedTo, Chain, Shown, First, Tiles, InOrder;
    forall s
      ensures Shown(out + {Merged(rows, start, end)}, s) == Shown(First(rows, end), s)
    {
      MergedShows(rows, start, end, out, s);
    }
    if Tiles(tiles, history) {
      ChainIsRun(tiles, rows, out, start, end, history);
      MergedGrows(tiles, rows, out, start, end, history);
    }
  }

  lemma WholeMerged(tiles: set<Version>, rows: seq<Version>, out: set<Version>, n: nat, history: seq<Listing>)
    requires (forall v :: v in rows <==> v in tiles) && ShowsTo(out, tiles, rows, |rows|, n, history)
    ensures InRange(out, n) && forall s :: Shown(out, s) == Shown(tiles, s)
    ensures Tiles(tiles, history) ==> Encodes(out, history)
  {
    assert First(rows, |rows|) == tiles;
    if Tiles(tiles, history) {
      AllMerged(tiles, rows, out, history);
    }
  }

  /** Merging, along each path, every row with the adjacent ones of the same
      content: it shows what it showed, and pieces in, the history's one
      encoding comes out. */
  method Coalesce(rows: seq<Version>, ghost tiles: set<Version>, ghost n: nat, ghost history: seq<Listing>)
    returns (out: set<Version>)
    requires InOrder(rows) && InRange(tiles, n) && (forall v :: v in rows <==> v in tiles)
    ensures InRange(out, n) && forall s :: Shown(out, s) == Shown(tiles, s)
    ensures Tiles(tiles, history) ==> Encodes(out, history)
  {
    hide ShowsTo, Tiles, InOrder, InRange, Shown, Encodes;
    out := {};
    NoneMerged(tiles, rows, n, history);
    var i := 0;
    while i < |rows|
      invariant i <= |rows| && ShowsTo(out, tiles, rows, i, n, history)
    {
      var base := rows[i];
      var newLast := base.last;
      var j := i + 1;
      while j < |rows| && Mergeable(base, newLast, rows[j])
        invariant i < j <= |rows| && Chain(rows, i, j) && newLast == rows[j - 1].last
      {
        newLast := rows[j].last;
        j := j + 1;
      }
      OneMoreMerged(tiles, rows, out, i, j, n, history);
      out := out + {base.(last := newLast)};
      i := j;
    }
    WholeMerged(tiles, rows, out, n, history);
  }

  lemma MergedGrows(tiles: set<Version>, rows: seq<Version>, out: set<Version>, start: nat, end: nat,
                    history: seq<Listing>)
    requires Tiles(tiles, history) && (forall v :: v in rows <==> v in tiles)
    requires start < end <= |rows| && Chain(rows, start, end) && MergedTo(out, rows, start, history)
    requires IsRun(history, Merged(rows, start, end))
    ensures MergedTo(out + {Merged(rows, start, end)}, rows, end, history)
  {
    var m := Merged(rows, start, end);
    var more := out + {m};
    forall k | 0 <= k < end
      ensures Within(more, rows[k])
    {
      if k < start {
        var o :| o in out && o.path == rows[k].path && o.content == rows[k].content && o.first <= rows[k].first &&
                 rows[k].last <= o.last;
        assert o in more;
      } else {
        ChainHolds(rows, start, end, k);
        assert m in more;
      }
    }
    forall o, s | o in more && Covers(o, s)
      ensures From(rows, end, o.path, s)
    {
      if o in out {
        assert From(rows, start, o.path, s);
      } else {
        var k := ChainCovers(rows, start, end, s);
      }
    }
  }

  lemma AllMerged(tiles: set<Version>, rows: seq<Version>, out: set<Version>, history: seq<Listing>)
    requires Tiles(tiles, history) && (forall v :: v in rows <==> v in tiles) && MergedTo(out, rows, |rows|, history)
    ensures Encodes(out, history)
  {
    forall v | IsRun(history, v)
      ensures v in out
    {
      assert Has(history, v.first, v.path, v.content);
      assert Covered(tiles, v.first, v.path, v.content);
      var t :| t in tiles && t.path == v.path && t.content == v.content && Covers(t, v.first);
      var k :| 0 <= k < |rows| && rows[k] == t;
      assert Within(out, rows[k]);
      var o :| o in out && o.path == t.path && o.content == t.content && o.first <= t.first && t.last <= o.last;
      OneRun(history, o, v, v.first);
    }
  }

  /** Removing archives leaves what is shown of the others as it was; and if
      the rows encoded a history, they encode what the others held, as though
      those removed had never been read. */
  method RemoveArchives(versions: set<Version>, keep: seq<bool>,
                        ghost history: seq<Listing>) returns (out: set<Version>)
    requires InRange(versions, |keep|)
    ensures InRange(out, Rank(keep, |keep|))
    ensures Told(out, Rank(keep, |keep|)) == Surviving(Told(versions, |keep|), keep)
    ensures |history| == |keep| && Encodes(versions, history) ==> Encodes(out, Surviving(history, keep))
  {
    RenumberedShows(versions, keep);
    ghost var left := if |history| == |keep| then Surviving(history, keep) else [];
    if |history| == |keep| && Encodes(versions, history) {
      RenumberedTiles(versions, history, keep);
    }
    var tiles := Renumbered(versions, keep);
    var rows := ReadOut(tiles);
    out := Coalesce(rows, tiles, Rank(keep, |keep|), left);
  }
}
