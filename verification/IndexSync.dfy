/** Recording archives the catalogue has not heard of, among those it has
    (crates/backtrack-core/src/index/writer.rs): the existing ones are
    renumbered to make room, and rows are split around each newcomer. */
module IndexSync {
  import opened Index
  import opened IndexRemove

  // ---- Where the existing archives go ----

  /** The new number of existing archive `k`, given which of the new numbers
      are existing archives'. */
  function NewNumber(known: seq<bool>, k: int): (s: int)
    requires 1 <= k <= Rank(known, |known|)
    ensures 1 <= s <= |known| && known[s - 1] && Rank(known, s) == k
    decreases |known|
  {
    var n := |known| - 1;
    if known[n] && Rank(known, n + 1) == k then n + 1
    else
      RankOfPart(known, n, n);
      var s := NewNumber(known[..n], k);
      RankOfPart(known, n, s);
      s
  }

  /** What both of two archives hold unchanged. */
  function Common(a: Listing, b: Listing): Listing {
    map p | p in a && p in b && a[p] == b[p] :: a[p]
  }

  /** What is unchanged from the `k`th existing archive to the next. */
  function Across(history: seq<Listing>, k: int): Listing {
    if 0 < k < |history| then Common(history[k - 1], history[k]) else map[]
  }

  /** How many newcomers come right before number `s`. */
  function NewBefore(known: seq<bool>, s: int): nat
    requires 1 <= s <= |known|
    decreases s
  {
    if s == 1 || known[s - 2] then 0 else NewBefore(known, s - 1) + 1
  }

  /** What the rows stand for once the newcomers up to `done` have been split
      around: a newcomer right after an existing archive, or after one that was
      passed over, is left with nothing; the others still seem to hold whatever
      is unchanged across them. */
  function Partly(history: seq<Listing>, known: seq<bool>, done: int): (h: seq<Listing>)
    requires Rank(known, |known|) == |history|
    ensures |h| == |known|
  {
    seq(|known|, i requires 0 <= i < |known| => NumberHolds(history, known, done, i + 1))
  }

  function NumberHolds(history: seq<Listing>, known: seq<bool>, done: int, s: int): Listing
    requires Rank(known, |known|) == |history| && 1 <= s <= |known|
  {
    RankGrows(known, s, |known|);
    if known[s - 1] then history[Rank(known, s) - 1]
    else if s <= done && NewBefore(known, s) % 2 == 0 then map[]
    else Across(history, Rank(known, s))
  }

  /** What they should stand for: newcomers nobody has read hold nothing. */
  function Spread(history: seq<Listing>, known: seq<bool>): (h: seq<Listing>)
    requires Rank(known, |known|) == |history|
    ensures |h| == |known|
  {
    seq(|known|, i requires 0 <= i < |known| =>
      RankGrows(known, i + 1, |known|);
      if known[i] then history[Rank(known, i + 1) - 1] else map[])
  }

  lemma SpreadAt(history: seq<Listing>, known: seq<bool>, i: nat)
    requires Rank(known, |known|) == |history| && i < |known|
    ensures known[i] ==> 1 <= Rank(known, i + 1) <= |history|
    ensures Spread(history, known)[i] == if known[i] then history[Rank(known, i + 1) - 1] else map[]
  {
    RankGrows(known, i + 1, |known|);
  }

  function Moved(v: Version, known: seq<bool>): Version
    requires 1 <= v.first <= v.last <= Rank(known, |known|)
  {
    Version(v.path, NewNumber(known, v.first), NewNumber(known, v.last), v.content)
  }

  function MovedAll(versions: set<Version>, known: seq<bool>): set<Version>
    requires InRange(versions, Rank(known, |known|))
  {
    set v | v in versions :: Moved(v, known)
  }

  /** Every row that spans `s`, split into the parts either side of it. */
  function SplitAround(versions: set<Version>, s: int): set<Version> {
    (set v | v in versions && !(v.first < s < v.last)) +
    (set v | v in versions && v.first < s < v.last :: Version(v.path, s + 1, v.last, v.content)) +
    (set v | v in versions && v.first < s < v.last :: Version(v.path, v.first, s - 1, v.content))
  }

  // ---- Moving ----

  lemma NewNumbersGrow(known: seq<bool>, a: int, b: int)
    requires 1 <= a < b <= Rank(known, |known|)
    ensures NewNumber(known, a) < NewNumber(known, b)
  {
    var s, t := NewNumber(known, a), NewNumber(known, b);
    if t <= s {
      RankGrows(known, t, s);
    }
  }

  /** The existing archives around a number: it is one, or lies between the
      last before it and the first after it. */
  lemma Between(known: seq<bool>, s: int, k: int)
    requires 1 <= s <= |known| && k == Rank(known, s)
    ensures k <= Rank(known, |known|)
    ensures k >= 1 ==> NewNumber(known, k) <= s
    ensures k < Rank(known, |known|) ==> s < NewNumber(known, k + 1)
    ensures known[s - 1] ==> k >= 1 && NewNumber(known, k) == s
  {
    RankGrows(known, s, |known|);
    if k >= 1 {
      var t := NewNumber(known, k);
      if t > s {
        RankGrows(known, s, t - 1);
      } else if known[s - 1] && t < s {
        RankGrows(known, t, s - 1);
      }
    }
    if k < Rank(known, |known|) && NewNumber(known, k + 1) <= s {
      RankGrows(known, NewNumber(known, k + 1), s);
    }
  }

  /** What an unsplit number seems to hold: the archive it is, or what is
      unchanged from the one before it to the one after. */
  lemma SeemsToHold(history: seq<Listing>, known: seq<bool>, s: int, path: int, content: Content)
    requires Rank(known, |known|) == |history| && 1 <= s <= |known|
    ensures var k := Rank(known, s);
            Has(Partly(history, known, 0), s, path, content) <==>
            Has(history, k, path, content) && (known[s - 1] || Has(history, k + 1, path, content))
  {
    RankGrows(known, s, |known|);
    assert known[s - 1] ==> Rank(known, s) >= 1;
  }

  /** Between two archives' new numbers, ranks are between the two; a newcomer's
      is before the second. */
  lemma RankWithin(known: seq<bool>, a: int, b: int, s: int)
    requires 1 <= a <= Rank(known, |known|) && 1 <= b <= Rank(known, |known|)
    requires NewNumber(known, a) <= s <= NewNumber(known, b)
    ensures a <= Rank(known, s) <= b && (!known[s - 1] ==> Rank(known, s) < b)
  {
    var last := NewNumber(known, b);
    RankGrows(known, NewNumber(known, a), s);
    RankGrows(known, s, last);
    if s < last {
      RankGrows(known, s, last - 1);
    }
  }

  /** A number from a row's new first to its new last seems to hold its file. */
  lemma MovedHolds(history: seq<Listing>, known: seq<bool>, v: Version, s: int)
    requires Rank(known, |known|) == |history| && IsRun(history, v) && 1 <= v.first <= v.last <= |history|
    requires NewNumber(known, v.first) <= s <= NewNumber(known, v.last)
    ensures Has(Partly(history, known, 0), s, v.path, v.content)
  {
    RankWithin(known, v.first, v.last, s);
    SeemsToHold(history, known, s, v.path, v.content);
    hide Partly, NewNumber, Rank;
  }

  lemma MovedStarts(history: seq<Listing>, known: seq<bool>, v: Version)
    requires Rank(known, |known|) == |history| && IsRun(history, v) && 1 <= v.first <= v.last <= |history|
    ensures !Has(Partly(history, known, 0), NewNumber(known, v.first) - 1, v.path, v.content)
  {
    var first := NewNumber(known, v.first);
    if first > 1 {
      assert Rank(known, first - 1) == v.first - 1;
      SeemsToHold(history, known, first - 1, v.path, v.content);
      hide Partly, NewNumber, Rank;
    }
  }

  lemma MovedStops(history: seq<Listing>, known: seq<bool>, v: Version)
    requires Rank(known, |known|) == |history| && IsRun(history, v) && 1 <= v.first <= v.last <= |history|
    ensures !Has(Partly(history, known, 0), NewNumber(known, v.last) + 1, v.path, v.content)
  {
    hide Partly, NewNumber;
    var last := NewNumber(known, v.last);
    if last < |known| {
      assert Rank(known, last + 1) == v.last + if known[last] then 1 else 0;
      SeemsToHold(history, known, last + 1, v.path, v.content);
    }
  }

  lemma MovedIsRun(history: seq<Listing>, known: seq<bool>, v: Version)
    requires Rank(known, |known|) == |history| && IsRun(history, v) && 1 <= v.first <= v.last <= |history|
    ensures IsRun(Partly(history, known, 0), Moved(v, known))
  {
    hide Partly, NewNumber, Rank, Has;
    if v.first < v.last {
      NewNumbersGrow(known, v.first, v.last);
    }
    MovedStarts(history, known, v);
    MovedStops(history, known, v);
    var m, seems := Moved(v, known), Partly(history, known, 0);
    forall s | m.first <= s <= m.last
      ensures Has(seems, s, v.path, v.content)
    {
      MovedHolds(history, known, v, s);
    }
  }

  /** A run of what the numbers seem to hold is a row moved. */
  lemma RunIsMoved(versions: set<Version>, history: seq<Listing>, known: seq<bool>, w: Version)
    requires Rank(known, |known|) == |history| && Encodes(versions, history) && InRange(versions, |history|)
    requires IsRun(Partly(history, known, 0), w)
    ensures w in MovedAll(versions, known)
  {
    var seems := Partly(history, known, 0);
    assert Has(seems, w.first, w.path, w.content);
    var k := Rank(known, w.first);
    SeemsToHold(history, known, w.first, w.path, w.content);
    var v := RunThrough(history, k, w.path, w.content);
    assert v in versions;
    MovedIsRun(history, known, v);
    GoesOnPast(history, v, k);
    MovedReaches(known, v, w.first);
    OneRun(seems, w, Moved(v, known), w.first);
  }

  lemma GoesOnPast(history: seq<Listing>, v: Version, k: int)
    requires IsRun(history, v) && Covers(v, k)
    ensures Has(history, k + 1, v.path, v.content) ==> k < v.last
  {
  }

  lemma MovedReaches(known: seq<bool>, v: Version, s: int)
    requires 1 <= s <= |known| && 1 <= v.first <= v.last <= Rank(known, |known|) && Covers(v, Rank(known, s))
    requires !known[s - 1] ==> Rank(known, s) < v.last
    ensures Covers(Moved(v, known), s)
  {
    var k := Rank(known, s);
    Between(known, s, k);
    if v.first < k {
      NewNumbersGrow(known, v.first, k);
    }
    if k < v.last {
      if k + 1 < v.last {
        NewNumbersGrow(known, k + 1, v.last);
      }
    }
  }

  lemma MovedEncodes(versions: set<Version>, history: seq<Listing>, known: seq<bool>)
    requires Rank(known, |known|) == |history| && Encodes(versions, history)
    ensures InRange(versions, |history|)
    ensures Encodes(MovedAll(versions, known), Partly(history, known, 0))
  {
    EncodedInRange(versions, history);
    var seems := Partly(history, known, 0);
    forall w
      ensures w in MovedAll(versions, known) <==> IsRun(seems, w)
    {
      if w in MovedAll(versions, known) {
        var v :| v in versions && w == Moved(v, known);
        MovedIsRun(history, known, v);
      }
      if IsRun(seems, w) {
        RunIsMoved(versions, history, known, w);
      }
    }
  }

  // ---- Splitting ----

  /** Splitting around an archive whose files are all unchanged across it
      leaves it with none. */
  lemma SplitEmpties(versions: set<Version>, history: seq<Listing>, s: int)
    requires Encodes(versions, history) && 1 <= s <= |history|
    requires forall path, content :: Has(history, s, path, content) ==>
               Has(history, s - 1, path, content) && Has(history, s + 1, path, content)
    ensures Encodes(SplitAround(versions, s), history[s - 1 := map[]])
  {
    var after := history[s - 1 := map[]];
    assert forall k, p, c :: Has(after, k, p, c) <==> Has(history, k, p, c) && k != s;
    forall v
      ensures v in SplitAround(versions, s) <==> IsRun(after, v)
    {
      if v in SplitAround(versions, s) {
        SplitIsRun(versions, history, after, s, v);
      }
      if IsRun(after, v) {
        RunIsSplit(versions, history, after, s, v);
      }
    }
  }

  lemma SplitIsRun(versions: set<Version>, history: seq<Listing>, after: seq<Listing>, s: int, v: Version)
    requires Encodes(versions, history) && v in SplitAround(versions, s)
    requires forall k, p, c :: Has(after, k, p, c) <==> Has(history, k, p, c) && k != s
    requires forall path, content :: Has(history, s, path, content) ==>
               Has(history, s - 1, path, content) && Has(history, s + 1, path, content)
    ensures IsRun(after, v)
  {
    if v in versions && !(v.first < s < v.last) {
      if Covers(v, s) {
        assert Has(history, s, v.path, v.content);
      }
    }
  }

  lemma RunIsSplit(versions: set<Version>, history: seq<Listing>, after: seq<Listing>, s: int, v: Version)
    requires Encodes(versions, history) && IsRun(after, v)
    requires forall k, p, c :: Has(after, k, p, c) <==> Has(history, k, p, c) && k != s
    requires forall path, content :: Has(history, s, path, content) ==>
               Has(history, s - 1, path, content) && Has(history, s + 1, path, content)
    ensures v in SplitAround(versions, s)
  {
    assert Covers(v, s) ==> Has(after, s, v.path, v.content);
    var whole := RunThrough(history, v.first, v.path, v.content);
    assert forall k :: v.first <= k <= v.last ==> Has(after, k, v.path, v.content);
    assert whole in versions;
    assert whole.first < v.first ==> Has(history, v.first - 1, v.path, v.content);
    assert v.first > whole.first ==> v.first - 1 == s;
    assert whole.last < v.last ==> Has(history, whole.last + 1, v.path, v.content);
    assert v.last < whole.last ==> Has(history, v.last + 1, v.path, v.content);
    assert v.last < whole.last ==> v.last + 1 == s;
    if v.first - 1 == s && Has(history, s, v.path, v.content) {
      assert !Has(history, whole.first - 1, v.path, v.content);
      assert whole.first != v.first;
      assert whole.first != s;
    } else if v.last + 1 == s && Has(history, s, v.path, v.content) {
      assert !Has(history, whole.last + 1, v.path, v.content);
      assert whole.last != v.last;
      assert whole.last != s;
    }
  }

  /** Where nothing leads up to an archive, no row spans it. */
  lemma SplitsNothing(versions: set<Version>, history: seq<Listing>, s: int)
    requires Encodes(versions, history)
    requires forall path, content :: Has(history, s, path, content) ==> !Has(history, s - 1, path, content)
    ensures SplitAround(versions, s) == versions
  {
    forall v | v in versions
      ensures !(v.first < s < v.last)
    {
      assert v.first <= s <= v.last ==> Has(history, s, v.path, v.content);
      assert v.first <= s - 1 <= v.last ==> Has(history, s - 1, v.path, v.content);
    }
  }

  // ---- One newcomer after another ----

  /** The rows, once the newcomers up to `done` have been split around. */
  function SplitTo(versions: set<Version>, known: seq<bool>, done: nat): set<Version>
    requires done <= |known|
  {
    if done == 0 then versions
    else
      var before := SplitTo(versions, known, done - 1);
      if known[done - 1] then before else SplitAround(before, done)
  }

  /** Splitting around number `s` takes away what it seemed to hold, or nothing
      as far as the rows go if the newcomer before it was emptied. */
  lemma NextPartly(history: seq<Listing>, known: seq<bool>, s: int)
    requires Rank(known, |known|) == |history| && 1 <= s <= |known| && !known[s - 1]
    ensures Partly(history, known, s) ==
            if NewBefore(known, s) % 2 == 0 then Partly(history, known, s - 1)[s - 1 := map[]]
            else Partly(history, known, s - 1)
  {
    var before, after := Partly(history, known, s - 1), Partly(history, known, s);
    forall i | 0 <= i < |known| && i != s - 1
      ensures before[i] == after[i]
    {
    }
  }

  lemma NextNewcomer(versions: set<Version>, history: seq<Listing>, known: seq<bool>, s: int)
    requires Rank(known, |known|) == |history| && 1 <= s <= |known| && !known[s - 1]
    requires Encodes(versions, Partly(history, known, s - 1))
    ensures Encodes(SplitAround(versions, s), Partly(history, known, s))
  {
    NextPartly(history, known, s);
    var before := Partly(history, known, s - 1);
    if NewBefore(known, s) % 2 == 0 {
      forall path, content | Has(before, s, path, content)
        ensures Has(before, s - 1, path, content) && Has(before, s + 1, path, content)
      {
        HeldIsBetween(history, known, s, path, content);
        BothSides(history, known, s, path, content);
      }
      SplitEmpties(versions, before, s);
    } else {
      PassedOver(history, known, s);
      hide SplitAround, Encodes, Partly;
      SplitsNothing(versions, before, s);
    }
  }

  /** A newcomer that is passed over comes right after one that was emptied. */
  lemma PassedOver(history: seq<Listing>, known: seq<bool>, s: int)
    requires Rank(known, |known|) == |history| && 1 <= s <= |known| && NewBefore(known, s) % 2 == 1
    ensures s > 1 && Partly(history, known, s - 1)[s - 2] == map[]
  {
    assert NewBefore(known, s) == NewBefore(known, s - 1) + 1;
  }

  lemma HeldIsBetween(history: seq<Listing>, known: seq<bool>, s: int, path: int, content: Content)
    requires Rank(known, |known|) == |history| && 1 <= s <= |known| && !known[s - 1]
    requires Has(Partly(history, known, s - 1), s, path, content)
    ensures 0 < Rank(known, s) < |history|
  {
    RankGrows(known, s, |known|);
  }

  /** What a newcomer still to be emptied seems to hold, the numbers either side
      of it seem to hold too. */
  lemma BothSides(history: seq<Listing>, known: seq<bool>, s: int, path: int, content: Content)
    requires Rank(known, |known|) == |history| && 1 <= s <= |known| && !known[s - 1] && NewBefore(known, s) % 2 == 0
    requires 0 < Rank(known, s) < |history| && Has(Partly(history, known, s - 1), s, path, content)
    ensures Has(Partly(history, known, s - 1), s - 1, path, content)
    ensures Has(Partly(history, known, s - 1), s + 1, path, content)
  {
    var k := Rank(known, s);
    Between(known, s, k);
    assert s > 1;
    assert s + 1 <= |known|;
    assert Rank(known, s - 1) == k && (known[s] ==> Rank(known, s + 1) == k + 1) &&
           (!known[s] ==> Rank(known, s + 1) == k);
    RankGrows(known, s + 1, |known|);
  }

  /** What the rows stand for in the end, whatever the archives held. */
  lemma {:induction false} SyncEncodes(versions: set<Version>, history: seq<Listing>, known: seq<bool>, done: nat)
    requires Rank(known, |known|) == |history| && Encodes(versions, history) && done <= |known|
    ensures InRange(versions, |history|)
    ensures Encodes(SplitTo(MovedAll(versions, known), known, done), Partly(history, known, done))
    decreases done
  {
    MovedEncodes(versions, history, known);
    if done > 0 {
      SyncEncodes(versions, history, known, done - 1);
      if known[done - 1] {
        assert Partly(history, known, done) == Partly(history, known, done - 1);
      } else {
        NextNewcomer(SplitTo(MovedAll(versions, known), known, done - 1), history, known, done);
      }
    }
  }

  /** No two newcomers are next to each other between archives that share an
      unchanged file. */
  ghost predicate Spaced(history: seq<Listing>, known: seq<bool>) {
    forall s :: 1 <= s < |known| && Pair(known, s) ==> Across(history, Rank(known, s)) == map[]
  }

  predicate Pair(known: seq<bool>, s: int)
    requires 1 <= s < |known|
  {
    !known[s - 1] && !known[s]
  }

  lemma SpacedLeavesNothing(history: seq<Listing>, known: seq<bool>)
    requires Rank(known, |known|) == |history| && Spaced(history, known)
    ensures Partly(history, known, |known|) == Spread(history, known)
  {
    var left, right := Partly(history, known, |known|), Spread(history, known);
    forall i | 0 <= i < |known|
      ensures left[i] == right[i]
    {
      if !known[i] && NewBefore(known, i + 1) % 2 == 1 {
        assert Pair(known, i) && Rank(known, i + 1) == Rank(known, i);
      }
    }
  }

  lemma NothingLeftIsSpaced(history: seq<Listing>, known: seq<bool>)
    requires Rank(known, |known|) == |history| && Partly(history, known, |known|) == Spread(history, known)
    ensures Spaced(history, known)
  {
    var left, right := Partly(history, known, |known|), Spread(history, known);
    forall s | 1 <= s < |known| && Pair(known, s)
      ensures Across(history, Rank(known, s)) == map[]
    {
      assert Rank(known, s + 1) == Rank(known, s);
      assert NewBefore(known, s + 1) == NewBefore(known, s) + 1;
      if NewBefore(known, s) % 2 == 1 {
        assert left[s - 1] == right[s - 1];
      } else {
        assert left[s] == right[s];
      }
    }
  }

  /** The newcomers are left holding nothing if and only if no two of them are
      next to each other between archives that share an unchanged file. */
  lemma SyncSoundIff(versions: set<Version>, history: seq<Listing>, known: seq<bool>)
    requires Rank(known, |known|) == |history| && Encodes(versions, history)
    ensures InRange(versions, |history|)
    ensures Encodes(SplitTo(MovedAll(versions, known), known, |known|), Spread(history, known)) <==>
            Spaced(history, known)
  {
    SyncEncodes(versions, history, known, |known|);
    var rows := SplitTo(MovedAll(versions, known), known, |known|);
    if Encodes(rows, Spread(history, known)) {
      OneHistory(rows, Partly(history, known, |known|), Spread(history, known));
      NothingLeftIsSpaced(history, known);
    }
    if Spaced(history, known) {
      SpacedLeavesNothing(history, known);
    }
  }

  // ---- What is shown, whatever the rows were ----

  /** A history in which one file is held, over one stretch of archives. */
  function Alone(v: Version, n: nat): (history: seq<Listing>)
    ensures |history| == n
    ensures forall i :: 0 <= i < n ==> history[i] == if Covers(v, i + 1) then map[v.path := v.content] else map[]
  {
    seq(n, i requires 0 <= i < n => if Covers(v, i + 1) then map[v.path := v.content] else map[])
  }

  lemma AloneEncodes(v: Version, n: nat)
    requires 1 <= v.first <= v.last <= n
    ensures Encodes({v}, Alone(v, n))
  {
    var history := Alone(v, n);
    assert forall s, p, c :: Has(history, s, p, c) <==> p == v.path && c == v.content && Covers(v, s);
    forall w
      ensures w in {v} <==> IsRun(history, w)
    {
      if IsRun(history, w) {
        assert Has(history, w.first, w.path, w.content) && Has(history, w.last, w.path, w.content);
      }
    }
  }

  /** The files held by one row right across the gap after archive `k`. */
  function Spanning(versions: set<Version>, k: int): set<Held> {
    set v | v in versions && v.first <= k < v.last :: Held(v.path, v.content)
  }

  /** Each row is moved and split on its own. */
  lemma {:induction false} SplitEach(versions: set<Version>, known: seq<bool>, done: nat, w: Version)
    requires InRange(versions, Rank(known, |known|)) && done <= |known|
    ensures w in SplitTo(MovedAll(versions, known), known, done) <==> OfSome(versions, known, done, w)
    decreases done
  {
    if done == 0 {
      SplitNone(versions, known, w);
    } else {
      var all := SplitTo(MovedAll(versions, known), known, done - 1);
      forall u
        ensures u in all <==> OfSome(versions, known, done - 1, u)
      {
        SplitEach(versions, known, done - 1, u);
      }
      SplitNext(versions, known, done, all, w);
    }
  }

  /** What one row comes to. */
  function ByItself(v: Version, known: seq<bool>, done: nat): set<Version>
    requires InRange({v}, Rank(known, |known|)) && done <= |known|
  {
    SplitTo(MovedAll({v}, known), known, done)
  }

  ghost predicate OfSome(versions: set<Version>, known: seq<bool>, done: nat, w: Version)
    requires done <= |known|
  {
    exists v :: v in versions && InRange({v}, Rank(known, |known|)) && w in ByItself(v, known, done)
  }

  lemma SplitNone(versions: set<Version>, known: seq<bool>, w: Version)
    requires InRange(versions, Rank(known, |known|))
    ensures w in MovedAll(versions, known) <==> OfSome(versions, known, 0, w)
  {
    forall v | v in versions
      ensures InRange({v}, Rank(known, |known|)) && ByItself(v, known, 0) == {Moved(v, known)}
    {
    }
    hide ByItself, Moved;
  }

  lemma SplitNext(versions: set<Version>, known: seq<bool>, done: nat, all: set<Version>, w: Version)
    requires 0 < done <= |known| && forall u :: u in all <==> OfSome(versions, known, done - 1, u)
    ensures w in (if known[done - 1] then all else SplitAround(all, done)) <==> OfSome(versions, known, done, w)
  {
    forall v | v in versions && InRange({v}, Rank(known, |known|))
      ensures ByItself(v, known, done) ==
              if known[done - 1] then ByItself(v, known, done - 1) else SplitAround(ByItself(v, known, done - 1), done)
    {
    }
    hide ByItself, InRange, SplitAround;
    if !known[done - 1] {
      SplitOf(all, done, w);
      forall v | v in versions && InRange({v}, Rank(known, |known|)) {
        SplitOf(ByItself(v, known, done - 1), done, w);
      }
    }
  }

  lemma SplitOf(versions: set<Version>, s: int, w: Version)
    ensures w in SplitAround(versions, s) <==> exists u :: u in versions && w in SplitAround({u}, s)
  {
    forall u | u in versions && w in SplitAround({u}, s)
      ensures w in SplitAround(versions, s)
    {
    }
    if w in SplitAround(versions, s) {
      var u :| u in versions && (w == u || (u.first < s < u.last &&
               (w == Version(u.path, s + 1, u.last, u.content) || w == Version(u.path, u.first, s - 1, u.content))))
               && (w == u ==> !(u.first < s < u.last));
      assert w in SplitAround({u}, s);
    }
  }

  /** What is shown of number `s` once there is room for the newcomers: what was
      shown of the archive it is; nothing of a newcomer that was split around;
      and of one passed over, whatever one row held right across its gap. */
  function ShownAt(versions: set<Version>, known: seq<bool>, s: int): set<Held>
    requires 1 <= s <= |known|
  {
    if known[s - 1] then Shown(versions, Rank(known, s))
    else if NewBefore(known, s) % 2 == 0 then {}
    else Spanning(versions, Rank(known, s))
  }

  lemma AloneShows(v: Version, known: seq<bool>, s: int)
    requires InRange({v}, Rank(known, |known|)) && 1 <= s <= |known|
    ensures Shown(ByItself(v, known, |known|), s) == ShownAt({v}, known, s)
  {
    hide Shown, ShownAt, Encodes, Rank, Pairs, SplitTo, MovedAll, InRange, Alone;
    JustThisRow(v, Rank(known, |known|));
    var n := Rank(known, |known|);
    var history := Alone(v, n);
    AloneEncodes(v, n);
    SyncEncodes({v}, history, known, |known|);
    EncodedShows(ByItself(v, known, |known|), Partly(history, known, |known|), s);
    RankGrows(known, s, |known|);
    AloneHolds(v, history, known, s);
  }

  lemma JustThisRow(v: Version, n: nat)
    requires InRange({v}, n)
    ensures 1 <= v.first <= v.last <= n
  {
    assert v in {v};
  }

  lemma AloneHolds(v: Version, history: seq<Listing>, known: seq<bool>, s: int)
    requires InRange({v}, Rank(known, |known|)) && 1 <= s <= |known|
    requires |history| == Rank(known, |known|) && history == Alone(v, |history|)
    ensures Pairs(NumberHolds(history, known, |known|, s)) == ShownAt({v}, known, s)
  {
    RankGrows(known, s, |known|);
    var k := Rank(known, s);
    assert v in {v} && 1 <= v.first <= v.last <= |history|;
    OnePair(v.path, v.content);
    assert Shown({v}, k) == if Covers(v, k) then {Held(v.path, v.content)} else {};
    assert Spanning({v}, k) == if v.first <= k < v.last then {Held(v.path, v.content)} else {};
    assert Across(history, k) == if v.first <= k < v.last then map[v.path := v.content] else map[];
    assert known[s - 1] ==> k >= 1 && history[k - 1] == if Covers(v, k) then map[v.path := v.content] else map[];
  }

  lemma OnePair(path: int, content: Content)
    ensures Pairs(map[path := content]) == {Held(path, content)} && Pairs(map[]) == {}
  {
    assert path in map[path := content];
  }

  lemma SlotShows(versions: set<Version>, known: seq<bool>, s: int)
    requires InRange(versions, Rank(known, |known|)) && 1 <= s <= |known|
    ensures Shown(SplitTo(MovedAll(versions, known), known, |known|), s) == ShownAt(versions, known, s)
  {
    hide SplitTo, MovedAll, NewBefore, Rank, ByItself;
    var after := SplitTo(MovedAll(versions, known), known, |known|);
    forall h | h in Shown(after, s)
      ensures h in ShownAt(versions, known, s)
    {
      var w :| w in after && Covers(w, s) && h == Held(w.path, w.content);
      SplitEach(versions, known, |known|, w);
      var v :| v in versions && InRange({v}, Rank(known, |known|)) && w in ByItself(v, known, |known|);
      AloneShows(v, known, s);
      assert h in ShownAt({v}, known, s);
    }
    forall h | h in ShownAt(versions, known, s)
      ensures h in Shown(after, s)
    {
      var v :| v in versions && h in ShownAt({v}, known, s);
      assert InRange({v}, Rank(known, |known|));
      AloneShows(v, known, s);
      var w :| w in ByItself(v, known, |known|) && Covers(w, s) && h == Held(w.path, w.content);
      SplitEach(versions, known, |known|, w);
    }
  }

  /** The rows that slotting in leaves are whole. */
  lemma SlotInRange(versions: set<Version>, known: seq<bool>)
    requires InRange(versions, Rank(known, |known|))
    ensures InRange(SplitTo(MovedAll(versions, known), known, |known|), |known|)
  {
    forall w | w in SplitTo(MovedAll(versions, known), known, |known|)
      ensures 1 <= w.first <= w.last <= |known|
    {
      SplitEach(versions, known, |known|, w);
      var v :| v in versions && InRange({v}, Rank(known, |known|)) &&
               w in SplitTo(MovedAll({v}, known), known, |known|);
      assert v in {v};
      var history := Alone(v, Rank(known, |known|));
      AloneEncodes(v, Rank(known, |known|));
      SyncEncodes({v}, history, known, |known|);
      EncodedInRange(SplitTo(MovedAll({v}, known), known, |known|), Partly(history, known, |known|));
    }
  }

  /** No two newcomers are next to each other in a gap that a row spans. */
  ghost predicate Clear(versions: set<Version>, known: seq<bool>) {
    forall s :: 1 <= s < |known| && Pair(known, s) ==> Spanning(versions, Rank(known, s)) == {}
  }

  ghost predicate NewcomersBlank(versions: set<Version>, known: seq<bool>) {
    forall s :: 1 <= s <= |known| && !known[s - 1] ==> Shown(versions, s) == {}
  }

  /** Of the newcomers nothing is shown, whatever the rows were, if and only if
      no two are next to each other in a gap that a row spans. */
  lemma NewcomersBlankIff(versions: set<Version>, known: seq<bool>)
    requires InRange(versions, Rank(known, |known|))
    ensures NewcomersBlank(SplitTo(MovedAll(versions, known), known, |known|), known) <==> Clear(versions, known)
  {
    var after := SplitTo(MovedAll(versions, known), known, |known|);
    forall s | 1 <= s <= |known|
      ensures Shown(after, s) == ShownAt(versions, known, s)
    {
      SlotShows(versions, known, s);
    }
    BlankIffClear(versions, known);
    hide SplitTo, MovedAll, Shown, Spanning, ShownAt, Clear;
  }

  lemma BlankIffClear(versions: set<Version>, known: seq<bool>)
    ensures (forall s :: 1 <= s <= |known| && !known[s - 1] ==> ShownAt(versions, known, s) == {}) <==>
            Clear(versions, known)
  {
    if Clear(versions, known) {
      forall s | 1 <= s <= |known| && !known[s - 1]
        ensures ShownAt(versions, known, s) == {}
      {
        if NewBefore(known, s) % 2 == 1 {
          assert Pair(known, s - 1) && Rank(known, s) == Rank(known, s - 1);
        }
      }
    }
    if forall s :: 1 <= s <= |known| && !known[s - 1] ==> ShownAt(versions, known, s) == {} {
      forall s | 1 <= s < |known| && Pair(known, s)
        ensures Spanning(versions, Rank(known, s)) == {}
      {
        assert Rank(known, s + 1) == Rank(known, s);
        assert NewBefore(known, s + 1) == NewBefore(known, s) + 1;
        assert ShownAt(versions, known, s) == {} && ShownAt(versions, known, s + 1) == {};
      }
    }
  }

  /** Where the rows encode a history, a row spans a gap exactly for each file
      unchanged across it. */
  lemma SpanningIsAcross(versions: set<Version>, history: seq<Listing>, k: int)
    requires Encodes(versions, history)
    ensures Spanning(versions, k) == Pairs(Across(history, k))
  {
    forall h
      ensures h in Spanning(versions, k) <==> h in Pairs(Across(history, k))
    {
      if h in Spanning(versions, k) {
        var v :| v in versions && v.first <= k < v.last && h == Held(v.path, v.content);
        assert Has(history, k, v.path, v.content) && Has(history, k + 1, v.path, v.content);
        assert v.path in Across(history, k) && Across(history, k)[v.path] == v.content;
      }
      if h in Pairs(Across(history, k)) {
        assert Has(history, k + 1, h.path, h.content);
        var v := RunThrough(history, k, h.path, h.content);
        assert v in versions;
      }
    }
  }

  lemma ClearIsSpaced(versions: set<Version>, history: seq<Listing>, known: seq<bool>)
    requires Rank(known, |known|) == |history| && Encodes(versions, history)
    ensures Clear(versions, known) <==> Spaced(history, known)
  {
    forall s | 1 <= s < |known|
      ensures Spanning(versions, Rank(known, s)) == {} <==> Across(history, Rank(known, s)) == map[]
    {
      SpanningIsAcross(versions, history, Rank(known, s));
      NoPairs(Across(history, Rank(known, s)));
    }
  }

  lemma NoPairs(listing: Listing)
    ensures Pairs(listing) == {} <==> listing == map[]
  {
    if forall path :: path in listing ==> Held(path, listing[path]) !in Pairs(listing) {
      assert listing == map[];
    }
  }

  /** Two newcomers in one gap, and a file held on either side: the second is left
      seeming to hold it. */
  lemma SecondClaims(path: int, content: Content)
    ensures var known, versions := [true, false, false, true], {Version(path, 1, 2, content)};
            && InRange(versions, Rank(known, 4)) && !Clear(versions, known)
            && Shown(SplitTo(MovedAll(versions, known), known, 4), 2) == {}
            && Shown(SplitTo(MovedAll(versions, known), known, 4), 3) == {Held(path, content)}
  {
    var known, row := [true, false, false, true], Version(path, 1, 2, content);
    assert Rank(known, 1) == 1 && Rank(known, 2) == 1 && Rank(known, 3) == 1 && Rank(known, 4) == 2;
    assert NewBefore(known, 2) == 0 && NewBefore(known, 3) == 1;
    assert row in {row} && Held(path, content) in Spanning({row}, 1);
    assert Pair(known, 2);
    SlotShows({row}, known, 2);
    SlotShows({row}, known, 3);
  }
}
