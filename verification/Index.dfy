/** The catalogue's interval encoding (crates/backtrack-core/src/index/writer.rs).

    One row says that a path held one content over a stretch of archives. What
    the rows stand for is a history: what each archive held. `Encodes` says that
    a set of rows is exactly the history's maximal runs, so a history has one
    encoding, and every operation below is proved to keep to it, whatever order
    archives are read in. */
module Index {
  import opened Text

  /** What two versions of a file are told apart by. */
  datatype Content = Content(kind: string, size: int, mtime: int, chunk: Option<string>)

  /** A row: `path` is the path's number in the catalogue. */
  datatype Version = Version(path: int, first: int, last: int, content: Content)

  /** What one archive held. */
  type Listing = map<int, Content>

  /** One file as it was in an archive. */
  datatype Held = Held(path: int, content: Content)

  function Pairs(listing: Listing): set<Held> {
    set path | path in listing :: Held(path, listing[path])
  }

  // ---- What rows stand for ----

  ghost predicate Has(history: seq<Listing>, s: int, path: int, content: Content) {
    1 <= s <= |history| && path in history[s - 1] && history[s - 1][path] == content
  }

  /** A stretch of archives over which a path held one content, and which goes
      no further either way. */
  ghost predicate IsRun(history: seq<Listing>, v: Version) {
    && v.first <= v.last
    && (forall s :: v.first <= s <= v.last ==> Has(history, s, v.path, v.content))
    && !Has(history, v.first - 1, v.path, v.content)
    && !Has(history, v.last + 1, v.path, v.content)
  }

  ghost predicate Encodes(versions: set<Version>, history: seq<Listing>) {
    forall v :: v in versions <==> IsRun(history, v)
  }

  predicate Covers(v: Version, s: int) {
    v.first <= s <= v.last
  }

  /** Rows that are whole, and within the first `n` archives. */
  predicate InRange(versions: set<Version>, n: nat) {
    forall v :: v in versions ==> 1 <= v.first <= v.last <= n
  }

  /** What the rows show of an archive, whether or not they encode anything. */
  function Shown(versions: set<Version>, s: int): set<Held> {
    set v | v in versions && Covers(v, s) :: Held(v.path, v.content)
  }

  /** Two runs of a path that meet are the same run. */
  lemma OneRun(history: seq<Listing>, a: Version, b: Version, s: int)
    requires IsRun(history, a) && IsRun(history, b) && a.path == b.path && Covers(a, s) && Covers(b, s)
    ensures a == b
  {
    assert Has(history, s, a.path, a.content) && Has(history, s, b.path, b.content);
    assert a.first < b.first ==> Covers(a, b.first - 1);
    assert b.first < a.first ==> Covers(b, a.first - 1);
    assert a.last < b.last ==> Covers(b, a.last + 1);
    assert b.last < a.last ==> Covers(a, b.last + 1);
  }

  /** Whatever an archive held, a run covers. */
  lemma RunThrough(history: seq<Listing>, s: int, path: int, content: Content) returns (v: Version)
    requires Has(history, s, path, content)
    ensures IsRun(history, v) && v.path == path && v.content == content && Covers(v, s)
  {
    var first, last := s, s;
    while Has(history, first - 1, path, content)
      invariant first <= s && forall k :: first <= k <= s ==> Has(history, k, path, content)
      decreases first
    {
      first := first - 1;
    }
    while Has(history, last + 1, path, content)
      invariant s <= last && forall k :: first <= k <= last ==> Has(history, k, path, content)
      decreases |history| - last
    {
      last := last + 1;
    }
    v := Version(path, first, last, content);
  }

  /** Reading the rows that cover an archive gives back what it held. */
  lemma ReadsBack(versions: set<Version>, history: seq<Listing>, s: int, path: int, content: Content)
    requires Encodes(versions, history) && 1 <= s <= |history|
    ensures (exists v :: v in versions && v.path == path && v.content == content && Covers(v, s)) <==>
            path in history[s - 1] && history[s - 1][path] == content
  {
    if Has(history, s, path, content) {
      var v := RunThrough(history, s, path, content);
    }
    if v :| v in versions && v.path == path && v.content == content && Covers(v, s) {
      assert Has(history, s, path, content);
    }
  }

  lemma EncodedShows(versions: set<Version>, history: seq<Listing>, s: int)
    requires Encodes(versions, history) && 1 <= s <= |history|
    ensures Shown(versions, s) == Pairs(history[s - 1])
  {
    forall h
      ensures h in Shown(versions, s) <==> h in Pairs(history[s - 1])
    {
      ReadsBack(versions, history, s, h.path, h.content);
    }
  }

  function Span(history: seq<Listing>, i: nat, j: nat, path: int): Version
    requires i < |history| && path in history[i]
  {
    Version(path, i + 1, j + 1, history[i][path])
  }

  lemma RunIsSpan(history: seq<Listing>, v: Version)
    requires IsRun(history, v)
    ensures 1 <= v.first <= v.last <= |history| && v.path in history[v.first - 1]
    ensures v == Span(history, v.first - 1, v.last - 1, v.path)
  {
    assert Has(history, v.first, v.path, v.content) && Has(history, v.last, v.path, v.content);
  }

  /** A history's maximal runs. */
  ghost function Encoding(history: seq<Listing>): set<Version> {
    set i, j, path | 0 <= i < |history| && 0 <= j < |history| && path in history[i] &&
                     IsRun(history, Span(history, i, j, path)) :: Span(history, i, j, path)
  }

  /** Every history has an encoding. */
  lemma EveryHistoryEncoded(history: seq<Listing>)
    ensures Encodes(Encoding(history), history)
  {
    forall v
      ensures v in Encoding(history) <==> IsRun(history, v)
    {
      if IsRun(history, v) {
        RunIsSpan(history, v);
        assert IsRun(history, Span(history, v.first - 1, v.last - 1, v.path));
      }
    }
  }

  /** A history has one encoding. */
  lemma OneEncoding(a: set<Version>, b: set<Version>, history: seq<Listing>)
    requires Encodes(a, history) && Encodes(b, history)
    ensures a == b
  {
  }

  /** And an encoding stands for one history. */
  lemma OneHistory(versions: set<Version>, a: seq<Listing>, b: seq<Listing>)
    requires Encodes(versions, a) && Encodes(versions, b) && |a| == |b|
    ensures a == b
  {
    forall i | 0 <= i < |a|
      ensures a[i] == b[i]
    {
      forall path: int
        ensures path in a[i] <==> path in b[i]
        ensures path in a[i] ==> a[i][path] == b[i][path]
      {
        if path in a[i] {
          ReadsBack(versions, a, i + 1, path, a[i][path]);
          ReadsBack(versions, b, i + 1, path, a[i][path]);
        }
        if path in b[i] {
          ReadsBack(versions, a, i + 1, path, b[i][path]);
          ReadsBack(versions, b, i + 1, path, b[i][path]);
        }
      }
    }
  }

  /** What the rows show of every archive. */
  function Told(versions: set<Version>, n: nat): (told: seq<set<Held>>)
    ensures |told| == n && forall i :: 0 <= i < n ==> told[i] == Shown(versions, i + 1)
  {
    seq(n, i requires 0 <= i < n => Shown(versions, i + 1))
  }

  // ---- Reading one archive in ----

  /** The row of `path` that ends at `s`, if it is of this content. */
  ghost predicate Ending(versions: set<Version>, path: int, s: int, content: Content, found: Option<Version>) {
    match found
    case Some(v) => v in versions && v.path == path && v.last == s && v.content == content
    case None => forall v :: v in versions && v.path == path && v.last == s ==> v.content != content
  }

  ghost predicate Starting(versions: set<Version>, path: int, s: int, content: Content, found: Option<Version>) {
    match found
    case Some(v) => v in versions && v.path == path && v.first == s && v.content == content
    case None => forall v :: v in versions && v.path == path && v.first == s ==> v.content != content
  }

  function Only(v: Option<Version>): set<Version> {
    if v.Some? then {v.value} else {}
  }

  /** The row that takes the place of those on either side of archive `s`. */
  function Joined(path: int, s: int, content: Content, left: Option<Version>, right: Option<Version>): Version {
    Version(path, if left.Some? then left.value.first else s, if right.Some? then right.value.last else s, content)
  }

  /** `after` is the history with one more thing held. */
  ghost predicate Added(history: seq<Listing>, after: seq<Listing>, s: int, path: int, content: Content) {
    forall k, p, c :: Has(after, k, p, c) <==> Has(history, k, p, c) || (k == s && p == path && c == content)
  }

  /** The runs that meet archive `s` from either side, if there are such. */
  ghost predicate Beside(history: seq<Listing>, s: int, path: int, content: Content, left: Option<Version>,
                         right: Option<Version>) {
    && !Has(history, s, path, content)
    && (if left.Some? then IsRun(history, left.value) && left.value == Version(path, left.value.first, s - 1, content)
        else !Has(history, s - 1, path, content))
    && (if right.Some?
        then IsRun(history, right.value) && right.value == Version(path, s + 1, right.value.last, content)
        else !Has(history, s + 1, path, content))
  }

  lemma RunsBeside(versions: set<Version>, history: seq<Listing>, s: int, path: int, content: Content,
                   left: Option<Version>, right: Option<Version>)
    requires Encodes(versions, history) && 1 <= s <= |history| && path !in history[s - 1]
    requires Ending(versions, path, s - 1, content, left) && Starting(versions, path, s + 1, content, right)
    ensures Beside(history, s, path, content, left, right)
  {
    if Has(history, s - 1, path, content) {
      var v := RunThrough(history, s - 1, path, content);
      assert !Has(history, s, path, content);
      assert v.last == s - 1;
    }
    if Has(history, s + 1, path, content) {
      var v := RunThrough(history, s + 1, path, content);
      assert !Has(history, s, path, content);
      assert v.first == s + 1;
    }
  }

  lemma RunsAfter(history: seq<Listing>, after: seq<Listing>, s: int, path: int, content: Content,
                  left: Option<Version>, right: Option<Version>, v: Version)
    requires Added(history, after, s, path, content) && Beside(history, s, path, content, left, right)
    ensures IsRun(after, v) <==>
            v == Joined(path, s, content, left, right) || (IsRun(history, v) && Some(v) != left && Some(v) != right)
  {
    var joined := Joined(path, s, content, left, right);
    hide Has;
    assert IsRun(after, joined);
    if v.path == path && v.content == content && IsRun(after, v) && Covers(v, s) {
      OneRun(after, v, joined, s);
    } else if IsRun(history, v) && Some(v) != left && Some(v) != right {
      StaysRun(history, after, v, s, path, content, left, right);
    }
  }

  /** One item read in: the rows on either side of the archive that it matches
      are joined over it, or it starts a row of its own. */
  lemma ItemEncodes(versions: set<Version>, history: seq<Listing>, s: int, path: int, content: Content,
                    left: Option<Version>, right: Option<Version>)
    requires Encodes(versions, history) && 1 <= s <= |history| && path !in history[s - 1]
    requires Ending(versions, path, s - 1, content, left) && Starting(versions, path, s + 1, content, right)
    ensures Encodes(versions - Only(left) - Only(right) + {Joined(path, s, content, left, right)},
                    history[s - 1 := history[s - 1][path := content]])
  {
    hide IsRun, Ending, Starting, Joined;
    var after := history[s - 1 := history[s - 1][path := content]];
    assert Added(history, after, s, path, content);
    RunsBeside(versions, history, s, path, content, left, right);
    forall v {
      RunsAfter(history, after, s, path, content, left, right, v);
    }
  }

  lemma StaysRun(history: seq<Listing>, after: seq<Listing>, v: Version, s: int, path: int, content: Content,
                 left: Option<Version>, right: Option<Version>)
    requires IsRun(history, v) && Added(history, after, s, path, content)
    requires Beside(history, s, path, content, left, right) && Some(v) != left && Some(v) != right
    ensures IsRun(after, v)
  {
    if v.path == path && v.content == content {
      if v.last + 1 == s {
        OneRun(history, v, left.value, v.last);
      }
      if v.first - 1 == s {
        OneRun(history, v, right.value, v.first);
      }
    }
  }

  /** Whatever the rows were, reading an item in shows it, and changes nothing
      else. */
  lemma ItemShows(versions: set<Version>, n: nat, s: int, path: int, content: Content, left: Option<Version>,
                  right: Option<Version>, t: int)
    requires InRange(versions, n) && 1 <= s <= n
    requires left.Some? ==> Ending(versions, path, s - 1, content, left)
    requires right.Some? ==> Starting(versions, path, s + 1, content, right)
    ensures var after := versions - Only(left) - Only(right) + {Joined(path, s, content, left, right)};
            && InRange(after, n)
            && Shown(after, t) == Shown(versions, t) + if t == s then {Held(path, content)} else {}
  {
    var joined := Joined(path, s, content, left, right);
    var after := versions - Only(left) - Only(right) + {joined};
    forall h
      ensures h in Shown(after, t) <==> h in Shown(versions, t) + if t == s then {Held(path, content)} else {}
    {
      if h in Shown(versions, t) {
        var v :| v in versions && Covers(v, t) && h == Held(v.path, v.content);
        assert v in Only(left) || v in Only(right) ==> Covers(joined, t);
        assert v in after || joined in after;
      }
      if Covers(joined, t) {
        assert joined in after;
      }
    }
  }

  // ---- What a listing says of the files it does not mention ----

  /** `l` ends just before archive `s`, and the listing says nothing of it. */
  predicate Carried(l: Version, s: int, spoken: set<int>) {
    l.last == s - 1 && l.path !in spoken
  }

  /** `r` takes up again just after archive `s` where `l` left off. */
  predicate TakesUp(l: Version, r: Version, s: int) {
    r.path == l.path && r.first == s + 1 && r.content == l.content
  }

  /** `v` is one that some carried row is taken up by. */
  predicate TakenUp(versions: set<Version>, s: int, spoken: set<int>, v: Version) {
    exists l :: l in versions && Carried(l, s, spoken) && TakesUp(l, v, s)
  }

  /** Which row each carried one is joined to, if any takes up again where it left
      off: whichever of those the store comes to first. */
  ghost predicate Picks(versions: set<Version>, s: int, spoken: set<int>, pick: map<Version, Version>) {
    && (forall l :: l in pick ==>
          l in versions && Carried(l, s, spoken) && pick[l] in versions && TakesUp(l, pick[l], s))
    && (forall l, r :: l in versions && Carried(l, s, spoken) && r in versions && TakesUp(l, r, s) ==> l in pick)
  }

  /** A row carried over archive `s`: to the end of the one it is joined to, and
      otherwise to `s`. */
  function Extended(l: Version, s: int, pick: map<Version, Version>): Version {
    Version(l.path, l.first, if l in pick then pick[l].last else s, l.content)
  }

  /** Every row the listing does not speak for, carried over archive `s`. Of those
      that take up again after it, none is left but as it was joined to. */
  function Carry(versions: set<Version>, s: int, spoken: set<int>, pick: map<Version, Version>): set<Version> {
    (set v | v in versions && !Carried(v, s, spoken) && !TakenUp(versions, s, spoken, v)) +
    (set l | l in versions && Carried(l, s, spoken) :: Extended(l, s, pick))
  }

  /** A delta's way, for the newest archive: every such row reaches over it. */
  function Reach(versions: set<Version>, s: int, spoken: set<int>): set<Version> {
    (set v | v in versions && !Carried(v, s, spoken)) +
    (set l | l in versions && Carried(l, s, spoken) :: Version(l.path, l.first, s, l.content))
  }

  function Before(history: seq<Listing>, s: int): Listing
    requires 1 <= s <= |history|
  {
    if s == 1 then map[] else history[s - 2]
  }

  /** The archive with what it does not speak for as the one before it had it. */
  function CarriedInto(history: seq<Listing>, s: int, spoken: set<int>): seq<Listing>
    requires 1 <= s <= |history|
  {
    history[s - 1 := history[s - 1] + (map p | p in Before(history, s) && p !in spoken :: Before(history, s)[p])]
  }

  lemma CarriedHas(history: seq<Listing>, s: int, spoken: set<int>, k: int, path: int, content: Content)
    requires 1 <= s <= |history| && history[s - 1].Keys <= spoken
    ensures Has(CarriedInto(history, s, spoken), k, path, content) <==>
            Has(history, k, path, content) || (k == s && path !in spoken && Has(history, s - 1, path, content))
  {
  }

  /** In an encoding, the carried row of a path the listing does not speak for is
      joined to the one run that takes it up, if the file is held again. */
  lemma PicksTheRun(versions: set<Version>, history: seq<Listing>, s: int, spoken: set<int>,
                    pick: map<Version, Version>, l: Version)
    requires Encodes(versions, history) && Picks(versions, s, spoken, pick)
    requires l in versions && Carried(l, s, spoken) && !Has(history, s, l.path, l.content)
    ensures l in pick <==> Has(history, s + 1, l.path, l.content)
    ensures l in pick ==> IsRun(history, pick[l]) && pick[l] == Version(l.path, s + 1, pick[l].last, l.content)
  {
    if l in pick {
      assert Has(history, pick[l].first, l.path, l.content);
    }
    TakenUpIfHeld(versions, history, l, s);
  }

  /** The carried row of a path the listing does not speak for, if the archive
      before had it. */
  lemma CarriedRow(versions: set<Version>, history: seq<Listing>, s: int, spoken: set<int>, pick: map<Version, Version>,
                   path: int, content: Content)
    returns (row: Version)
    requires Encodes(versions, history) && 1 <= s <= |history| && history[s - 1].Keys <= spoken
    requires Picks(versions, s, spoken, pick) && path !in spoken && Has(history, s - 1, path, content)
    ensures row in Carry(versions, s, spoken, pick) && row.path == path && row.content == content && Covers(row, s)
    ensures IsRun(CarriedInto(history, s, spoken), row)
  {
    var l := RunThrough(history, s - 1, path, content);
    assert !Has(history, s, path, content);
    assert l in versions && Carried(l, s, spoken);
    forall k, c
      ensures Has(CarriedInto(history, s, spoken), k, path, c) <==>
              Has(history, k, path, c) || (k == s && Has(history, s - 1, path, c))
    {
      CarriedHas(history, s, spoken, k, path, c);
    }
    PicksTheRun(versions, history, s, spoken, pick, l);
    row := Extended(l, s, pick);
  }

  lemma CarryEncodes(versions: set<Version>, history: seq<Listing>, s: int, spoken: set<int>,
                     pick: map<Version, Version>)
    requires Encodes(versions, history) && 1 <= s <= |history| && history[s - 1].Keys <= spoken
    requires Picks(versions, s, spoken, pick)
    ensures Encodes(Carry(versions, s, spoken, pick), CarriedInto(history, s, spoken))
  {
    var after := CarriedInto(history, s, spoken);
    forall v
      ensures v in Carry(versions, s, spoken, pick) <==> IsRun(after, v)
    {
      forall k
        ensures Has(after, k, v.path, v.content) <==>
                Has(history, k, v.path, v.content) ||
                (k == s && v.path !in spoken && Has(history, s - 1, v.path, v.content))
      {
        CarriedHas(history, s, spoken, k, v.path, v.content);
      }
      if v.path !in spoken && Has(history, s - 1, v.path, v.content) {
        var row := CarriedRow(versions, history, s, spoken, pick, v.path, v.content);
        CarryAround(versions, history, s, spoken, pick, row, v);
      } else {
        CarryLeaves(versions, history, s, spoken, pick, v);
      }
    }
  }

  /** Rows of a path and content that the archive before did not have, or that
      the listing speaks for, stay as they are. */
  lemma CarryLeaves(versions: set<Version>, history: seq<Listing>, s: int, spoken: set<int>,
                    pick: map<Version, Version>, v: Version)
    requires Encodes(versions, history) && 1 <= s <= |history|
    requires v.path in spoken || !Has(history, s - 1, v.path, v.content)
    ensures v in Carry(versions, s, spoken, pick) <==> v in versions
  {
    forall l | l in versions && Carried(l, s, spoken)
      ensures l.path != v.path || l.content != v.content
    {
      assert Has(history, l.last, l.path, l.content);
    }
  }

  /** Among the rows of a carried path, those the carried row meets are gone,
      and the others stay. */
  lemma CarryAround(versions: set<Version>, history: seq<Listing>, s: int, spoken: set<int>,
                    pick: map<Version, Version>, row: Version, v: Version)
    requires Encodes(versions, history) && 1 <= s <= |history| && history[s - 1].Keys <= spoken
    requires Picks(versions, s, spoken, pick)
    requires v.path !in spoken && Has(history, s - 1, v.path, v.content)
    requires row in Carry(versions, s, spoken, pick) && row.path == v.path && row.content == v.content && Covers(row, s)
    requires IsRun(CarriedInto(history, s, spoken), row)
    ensures v in Carry(versions, s, spoken, pick) <==> IsRun(CarriedInto(history, s, spoken), v)
  {
    var after := CarriedInto(history, s, spoken);
    forall k
      ensures Has(after, k, v.path, v.content) <==> Has(history, k, v.path, v.content) || k == s
    {
      CarriedHas(history, s, spoken, k, v.path, v.content);
    }
    var left := RunThrough(history, s - 1, v.path, v.content);
    assert !Has(history, s, v.path, v.content) && left.last == s - 1;
    if v in Carry(versions, s, spoken, pick) {
      CarryKeepsRuns(versions, history, after, s, spoken, pick, left, v);
    }
    if IsRun(after, v) && Covers(v, s) {
      OneRun(after, v, row, s);
    } else if IsRun(after, v) {
      assert IsRun(history, v);
      assert !Has(after, v.last + 1, v.path, v.content) && !Has(after, v.first - 1, v.path, v.content);
    }
  }

  lemma CarryKeepsRuns(versions: set<Version>, history: seq<Listing>, after: seq<Listing>, s: int, spoken: set<int>,
                       pick: map<Version, Version>, left: Version, v: Version)
    requires Encodes(versions, history) && v.path !in spoken && !Has(history, s, v.path, v.content)
    requires Picks(versions, s, spoken, pick)
    requires left in versions && left.path == v.path && left.content == v.content && left.last == s - 1
    requires forall k :: Has(after, k, v.path, v.content) <==> Has(history, k, v.path, v.content) || k == s
    requires v in Carry(versions, s, spoken, pick)
    ensures IsRun(after, v)
  {
    if v in versions && !Carried(v, s, spoken) && !TakenUp(versions, s, spoken, v) {
      assert v.first - 1 == s ==> TakesUp(left, v, s);
    } else {
      var l :| l in versions && Carried(l, s, spoken) && v == Extended(l, s, pick);
      PicksTheRun(versions, history, s, spoken, pick, l);
    }
  }

  /** A file held again right after an archive that lacks it starts a row there. */
  lemma TakenUpIfHeld(versions: set<Version>, history: seq<Listing>, l: Version, s: int)
    requires Encodes(versions, history) && !Has(history, s, l.path, l.content)
    ensures Has(history, s + 1, l.path, l.content) ==> exists r :: r in versions && TakesUp(l, r, s)
  {
    if Has(history, s + 1, l.path, l.content) {
      var r := RunThrough(history, s + 1, l.path, l.content);
      assert TakesUp(l, r, s);
    }
  }

  /** What of it a listing says nothing about. */
  function Unspoken(shown: set<Held>, spoken: set<int>): set<Held> {
    set h | h in shown && h.path !in spoken
  }

  /** A row that is not taken up shows a file of archive `t`. */
  ghost predicate RowStays(versions: set<Version>, s: int, spoken: set<int>, h: Held, t: int) {
    exists v :: v in versions && !TakenUp(versions, s, spoken, v) && Covers(v, t) && h == Held(v.path, v.content)
  }

  /** A file is shown of a later archive by a row that stays, or by a carried one
      that is joined to a row that reaches it. */
  ghost predicate StillShown(versions: set<Version>, s: int, spoken: set<int>, pick: map<Version, Version>, h: Held,
                             t: int)
  {
    || RowStays(versions, s, spoken, h, t)
    || (exists l :: l in pick && t <= pick[l].last && h == Held(l.path, l.content))
  }

  /** What is shown of archive `t` no more once the rows are carried over `s`. */
  ghost function Lost(versions: set<Version>, s: int, spoken: set<int>, pick: map<Version, Version>,
                      t: int): set<Held> {
    set h | h in Shown(versions, t) && s < t && !StillShown(versions, s, spoken, pick, h, t)
  }

  lemma NoneLostBefore(versions: set<Version>, s: int, spoken: set<int>, pick: map<Version, Version>, t: int)
    requires t <= s
    ensures Lost(versions, s, spoken, pick, t) == {}
  {
  }

  /** Whatever the rows were, carrying shows of an archive what the one before
      shows of everything not spoken for; and of later ones, what it does not lose. */
  lemma CarryShows(versions: set<Version>, n: nat, s: int, spoken: set<int>, pick: map<Version, Version>, t: int)
    requires InRange(versions, n) && 1 <= s <= n && Picks(versions, s, spoken, pick)
    ensures InRange(Carry(versions, s, spoken, pick), n)
    ensures Shown(Carry(versions, s, spoken, pick), t) ==
            Shown(versions, t) - Lost(versions, s, spoken, pick, t) +
            if t == s then Unspoken(Shown(versions, s - 1), spoken) else {}
  {
    hide StillShown;
    var after := Carry(versions, s, spoken, pick);
    forall h | h in Shown(versions, t) && h !in Lost(versions, s, spoken, pick, t)
      ensures h in Shown(after, t)
    {
      if t <= s {
        var v :| v in versions && Covers(v, t) && h == Held(v.path, v.content);
        StaysBefore(versions, n, s, spoken, pick, v, t);
      } else {
        StaysAfter(versions, n, s, spoken, pick, h, t);
      }
    }
    forall h | t == s && h in Unspoken(Shown(versions, s - 1), spoken)
      ensures h in Shown(after, s)
    {
      var v :| v in versions && Covers(v, s - 1) && h == Held(v.path, v.content);
      StaysBefore(versions, n, s, spoken, pick, v, s);
    }
    forall w | w in after && Covers(w, t)
      ensures var h := Held(w.path, w.content);
              h in Shown(versions, t) - Lost(versions, s, spoken, pick, t) +
                   if t == s then Unspoken(Shown(versions, s - 1), spoken) else {}
    {
      OnlyCarriedShown(versions, n, s, spoken, pick, w, t);
    }
  }

  /** A file is shown as far as it was, and over the archive if the listing does
      not speak for it. */
  lemma StaysBefore(versions: set<Version>, n: nat, s: int, spoken: set<int>, pick: map<Version, Version>, v: Version,
                    t: int)
    requires InRange(versions, n) && Picks(versions, s, spoken, pick) && v in versions && t <= s
    requires Covers(v, t) || (t == s && Covers(v, s - 1) && v.path !in spoken)
    ensures Held(v.path, v.content) in Shown(Carry(versions, s, spoken, pick), t)
  {
    var w := if Carried(v, s, spoken) then Extended(v, s, pick) else v;
    assert w in Carry(versions, s, spoken, pick) && Covers(w, t);
  }

  lemma StaysAfter(versions: set<Version>, n: nat, s: int, spoken: set<int>, pick: map<Version, Version>, h: Held,
                   t: int)
    requires InRange(versions, n) && Picks(versions, s, spoken, pick) && s < t
    requires StillShown(versions, s, spoken, pick, h, t)
    ensures h in Shown(Carry(versions, s, spoken, pick), t)
  {
    if RowStays(versions, s, spoken, h, t) {
      var v :| v in versions && !TakenUp(versions, s, spoken, v) && Covers(v, t) && h == Held(v.path, v.content);
      assert v in Carry(versions, s, spoken, pick);
    } else {
      var l :| l in pick && t <= pick[l].last && h == Held(l.path, l.content);
      assert Extended(l, s, pick) in Carry(versions, s, spoken, pick) && Covers(Extended(l, s, pick), t);
    }
  }

  lemma OnlyCarriedShown(versions: set<Version>, n: nat, s: int, spoken: set<int>, pick: map<Version, Version>,
                         w: Version, t: int)
    requires InRange(versions, n) && Picks(versions, s, spoken, pick)
    requires w in Carry(versions, s, spoken, pick) && Covers(w, t)
    ensures var h := Held(w.path, w.content);
            h in Shown(versions, t) - Lost(versions, s, spoken, pick, t) +
                 if t == s then Unspoken(Shown(versions, s - 1), spoken) else {}
  {
    var h := Held(w.path, w.content);
    if w in versions && !Carried(w, s, spoken) && !TakenUp(versions, s, spoken, w) {
      assert h in Shown(versions, t);
    } else {
      var l :| l in versions && Carried(l, s, spoken) && w == Extended(l, s, pick);
      assert if t < s then Covers(l, t) else if t == s then Covers(l, s - 1) else l in pick && Covers(pick[l], t);
    }
  }

  /** Two rows of a file that take up where a carried one left off. */
  ghost predicate BothTakeUp(versions: set<Version>, s: int, spoken: set<int>, q: Version, r: Version) {
    && q in versions && TakenUp(versions, s, spoken, q) && r in versions && TakenUp(versions, s, spoken, r)
    && q.path == r.path && q.content == r.content
  }

  /** Whichever rows are joined, carrying loses nothing: of two that take up where
      a carried row left off, whatever of the longer goes on past the shorter is
      covered by rows of the file that stay. */
  ghost predicate SafeToCarry(versions: set<Version>, s: int, spoken: set<int>) {
    forall q, r, t :: BothTakeUp(versions, s, spoken, q, r) && q.last < t <= r.last ==>
      RowStays(versions, s, spoken, Held(r.path, r.content), t)
  }

  /** Whichever rows the store comes to first, carrying loses nothing of any
      archive if and only if it is safe. */
  lemma CarryKeepsIff(versions: set<Version>, n: nat, s: int, spoken: set<int>)
    requires InRange(versions, n) && 1 <= s <= n
    ensures (forall pick, t :: Picks(versions, s, spoken, pick) ==>
               Shown(versions, t) <= Shown(Carry(versions, s, spoken, pick), t)) <==>
            SafeToCarry(versions, s, spoken)
  {
    if SafeToCarry(versions, s, spoken) {
      forall pick, t | Picks(versions, s, spoken, pick)
        ensures Shown(versions, t) <= Shown(Carry(versions, s, spoken, pick), t)
      {
        SafeLosesNothing(versions, n, s, spoken, pick, t);
        CarryShows(versions, n, s, spoken, pick, t);
      }
    } else {
      var q, r, t :| BothTakeUp(versions, s, spoken, q, r) && q.last < t <= r.last &&
                     !RowStays(versions, s, spoken, Held(r.path, r.content), t);
      var pick := ShortPicks(versions, s, spoken, q);
      ShortLoses(versions, n, s, spoken, pick, q, r, t);
    }
  }

  lemma SafeLosesNothing(versions: set<Version>, n: nat, s: int, spoken: set<int>, pick: map<Version, Version>, t: int)
    requires InRange(versions, n) && Picks(versions, s, spoken, pick) && SafeToCarry(versions, s, spoken)
    ensures Lost(versions, s, spoken, pick, t) == {}
  {
    forall h | h in Shown(versions, t) && s < t
      ensures StillShown(versions, s, spoken, pick, h, t)
    {
      var r :| r in versions && Covers(r, t) && h == Held(r.path, r.content);
      if TakenUp(versions, s, spoken, r) {
        var l :| l in versions && Carried(l, s, spoken) && TakesUp(l, r, s);
        var q := pick[l];
        assert BothTakeUp(versions, s, spoken, q, r);
        if q.last < t {
          assert RowStays(versions, s, spoken, h, t);
        }
      }
    }
  }

  /** One way to pick: `q`, for every row it takes up. */
  lemma ShortPicks(versions: set<Version>, s: int, spoken: set<int>, q: Version) returns (pick: map<Version, Version>)
    requires q in versions
    ensures Picks(versions, s, spoken, pick) && forall l :: l in pick && TakesUp(l, q, s) ==> pick[l] == q
  {
    pick := map l | l in versions && Carried(l, s, spoken) && (exists r :: r in versions && TakesUp(l, r, s)) ::
      OneFor(versions, s, q, l);
  }

  ghost function OneFor(versions: set<Version>, s: int, q: Version, l: Version): (r: Version)
    requires q in versions && exists r :: r in versions && TakesUp(l, r, s)
    ensures r in versions && TakesUp(l, r, s) && (TakesUp(l, q, s) ==> r == q)
  {
    if TakesUp(l, q, s) then q
    else
      var r :| r in versions && TakesUp(l, r, s);
      r
  }

  lemma ShortLoses(versions: set<Version>, n: nat, s: int, spoken: set<int>, pick: map<Version, Version>, q: Version,
                   r: Version, t: int)
    requires InRange(versions, n) && 1 <= s <= n && Picks(versions, s, spoken, pick)
    requires forall l :: l in pick && TakesUp(l, q, s) ==> pick[l].last <= q.last
    requires BothTakeUp(versions, s, spoken, q, r) && q.last < t <= r.last
    requires !RowStays(versions, s, spoken, Held(r.path, r.content), t)
    ensures !(Shown(versions, t) <= Shown(Carry(versions, s, spoken, pick), t))
  {
    var h := Held(r.path, r.content);
    assert q.first == s + 1 && r.first == s + 1;
    assert h in Shown(versions, t);
    forall l | l in pick && h == Held(l.path, l.content)
      ensures pick[l].last < t
    {
      assert TakesUp(l, q, s);
    }
    assert !StillShown(versions, s, spoken, pick, h, t);
    CarryShows(versions, n, s, spoken, pick, t);
  }

  /** So it is for a store that comes to the shortest first. */
  lemma ShortestKeepsIff(versions: set<Version>, n: nat, s: int, spoken: set<int>, pick: map<Version, Version>)
    requires InRange(versions, n) && 1 <= s <= n && Picks(versions, s, spoken, pick)
    requires forall l, r :: l in pick && r in versions && TakesUp(l, r, s) ==> pick[l].last <= r.last
    ensures (forall t :: Shown(versions, t) <= Shown(Carry(versions, s, spoken, pick), t)) <==>
            SafeToCarry(versions, s, spoken)
  {
    if SafeToCarry(versions, s, spoken) {
      forall t
        ensures Shown(versions, t) <= Shown(Carry(versions, s, spoken, pick), t)
      {
        SafeLosesNothing(versions, n, s, spoken, pick, t);
        CarryShows(versions, n, s, spoken, pick, t);
      }
    } else {
      var q, r, t :| BothTakeUp(versions, s, spoken, q, r) && q.last < t <= r.last &&
                     !RowStays(versions, s, spoken, Held(r.path, r.content), t);
      ShortLoses(versions, n, s, spoken, pick, q, r, t);
    }
  }

  /** It is safe if no two rows take up where one left off. */
  lemma OneTakesUpIsSafe(versions: set<Version>, s: int, spoken: set<int>)
    requires forall l, q, r ::
               l in versions && Carried(l, s, spoken) && q in versions && TakesUp(l, q, s) &&
               r in versions && TakesUp(l, r, s) ==>
                 q == r
    ensures SafeToCarry(versions, s, spoken)
  {
    forall q, r | BothTakeUp(versions, s, spoken, q, r)
      ensures q == r
    {
      var l :| l in versions && Carried(l, s, spoken) && TakesUp(l, q, s);
      assert TakesUp(l, r, s);
    }
  }

  /** As in an encoding. */
  lemma EncodedIsSafe(versions: set<Version>, history: seq<Listing>, s: int, spoken: set<int>)
    requires Encodes(versions, history)
    ensures SafeToCarry(versions, s, spoken)
  {
    forall l, q, r | q in versions && TakesUp(l, q, s) && r in versions && TakesUp(l, r, s)
      ensures q == r
    {
      assert Covers(q, s + 1) && Covers(r, s + 1);
      OneRun(history, q, r, s + 1);
    }
    OneTakesUpIsSafe(versions, s, spoken);
  }

  /** An unchanged file last shown by two rows that start together, and joined to
      the shorter: the longer is gone, and the file with it. */
  lemma CarryLoses(path: int, content: Content)
    ensures var before, short, long :=
              Version(path, 1, 1, content), Version(path, 3, 3, content), Version(path, 3, 4, content);
            var versions, pick := {before, short, long}, map[before := short];
            && InRange(versions, 4) && Picks(versions, 2, {}, pick)
            && Carry(versions, 2, {}, pick) == {Version(path, 1, 3, content)}
            && Shown(versions, 4) == {Held(path, content)} && Shown(Carry(versions, 2, {}, pick), 4) == {}
  {
    var before, short, long := Version(path, 1, 1, content), Version(path, 3, 3, content), Version(path, 3, 4, content);
    var versions, pick := {before, short, long}, map[before := short];
    assert TakesUp(before, short, 2) && TakesUp(before, long, 2);
    assert TakenUp(versions, 2, {}, short) && TakenUp(versions, 2, {}, long);
    assert Carry(versions, 2, {}, pick) == {Extended(before, 2, pick)};
    assert long in versions && Covers(long, 4);
  }

  lemma ReachShows(versions: set<Version>, n: nat, s: int, spoken: set<int>, t: int)
    requires InRange(versions, n) && 1 <= s <= n
    ensures InRange(Reach(versions, s, spoken), n)
    ensures Shown(Reach(versions, s, spoken), t) ==
            Shown(versions, t) + if t == s then Unspoken(Shown(versions, s - 1), spoken) else {}
  {
    var after := Reach(versions, s, spoken);
    forall v | v in versions && (Covers(v, t) || (t == s && Covers(v, s - 1) && v.path !in spoken))
      ensures Held(v.path, v.content) in Shown(after, t)
    {
      var w := if Carried(v, s, spoken) then Version(v.path, v.first, s, v.content) else v;
      assert w in after && Covers(w, t);
    }
    forall w | w in after && Covers(w, t)
      ensures Held(w.path, w.content) in
              Shown(versions, t) + if t == s then Unspoken(Shown(versions, s - 1), spoken) else {}
    {
      if w !in versions {
        var l :| l in versions && Carried(l, s, spoken) && w == Version(l.path, l.first, s, l.content);
        assert Covers(l, if t == s then s - 1 else t);
      }
    }
  }

  /** For the newest archive, reaching over it is all that carrying comes to. */
  lemma ReachIsCarry(versions: set<Version>, history: seq<Listing>, spoken: set<int>)
    requires Encodes(versions, history) && |history| > 0
    ensures Picks(versions, |history|, spoken, map[])
    ensures Reach(versions, |history|, spoken) == Carry(versions, |history|, spoken, map[])
  {
    forall v | v in versions
      ensures v.first <= |history|
    {
      assert Has(history, v.first, v.path, v.content);
    }
  }
}
