/** The steps a recovery is made of
    (crates/backtrack-core/src/recovery.rs). */
module Layout {
  import opened Sorting
  import Text

  datatype Kind = Dir | File | Other

  /** One thing in a backup: its path is a list of names. */
  datatype Member = Member(path: seq<string>, kind: Kind, size: nat)

  /** What is totalled: bytes, or files. */
  datatype Unit = Bytes | Files

  function Amount(m: Member, unit: Unit): nat {
    if !m.kind.File? then 0 else if unit.Bytes? then m.size else 1
  }

  predicate Below(path: seq<string>, tops: seq<seq<string>>) {
    exists i :: 0 <= i < |tops| && tops[i] <= path
  }

  /** The files at or below any of `tops` and none of `never`. */
  function Sum(members: seq<Member>, tops: seq<seq<string>>, never: seq<seq<string>>, unit: Unit): nat {
    if members == [] then 0 else Sum(members[1..], tops, never, unit) + Count(members[0], tops, never, unit)
  }

  function Count(m: Member, tops: seq<seq<string>>, never: seq<seq<string>>, unit: Unit): nat {
    if Below(m.path, tops) && !Below(m.path, never) then Amount(m, unit) else 0
  }

  /** One thing directly inside a folder, with what is at or below it. */
  datatype Contents = Contents(name: string, kind: Kind, size: Size)

  datatype Size = Size(bytes: nat, files: nat)

  function Of(size: Size, unit: Unit): nat {
    if unit.Bytes? then size.bytes else size.files
  }

  function Plus(a: Size, b: Size): (sum: Size)
    ensures forall unit :: Of(sum, unit) == Of(a, unit) + Of(b, unit)
  {
    Size(a.bytes + b.bytes, a.files + b.files)
  }

  function Minus(a: nat, b: nat): nat {
    if b <= a then a - b else 0
  }

  /** Never below zero. */
  function Less(a: Size, b: Size): (rest: Size)
    ensures forall unit :: Of(rest, unit) == Minus(Of(a, unit), Of(b, unit))
  {
    Size(Minus(a.bytes, b.bytes), Minus(a.files, b.files))
  }

  datatype Step = Step(key: string, members: seq<seq<string>>, size: Size)

  const THE_REST := "."

  /** Backtrack's own folders, release and development. */
  function Never(): (tails: seq<seq<string>>)
    ensures |tails| == 2
  {
    [[".local", "share", "backtrack"], [".local", "share", "backtrack-dev"]]
  }

  function NeverIn(source: seq<string>): (never: seq<seq<string>>)
    ensures |never| == |Never()|
  {
    [source + Never()[0], source + Never()[1]]
  }

  /** What the catalogue answers when asked what is directly inside a folder. */
  ghost predicate AreContents(members: seq<Member>, source: seq<string>, contents: seq<Contents>) {
    && (forall i, j :: 0 <= i < j < |contents| ==> contents[i].name != contents[j].name)
    && (forall i :: 0 <= i < |contents| ==>
          contents[i].name != "" &&
          forall unit :: Of(contents[i].size, unit) == Sum(members, [source + [contents[i].name]], [], unit))
    && (forall k :: 0 <= k < |members| && source < members[k].path ==>
          exists i :: 0 <= i < |contents| && contents[i].name == members[k].path[|source|])
  }

  predicate IsFolder(c: Contents) {
    c.kind.Dir? && !("." <= c.name)
  }

  // ---- Smallest first ----

  predicate StepLess(a: Step, b: Step) {
    a.size.bytes < b.size.bytes || (a.size.bytes == b.size.bytes && Text.Less(a.key, b.key))
  }

  function SortSteps(steps: seq<Step>): seq<Step> {
    Sort(StepLess, steps)
  }

  function StepsTotal(steps: seq<Step>, unit: Unit): nat {
    if steps == [] then 0 else Of(steps[0].size, unit) + StepsTotal(steps[1..], unit)
  }

  function StepsMembers(steps: seq<Step>): multiset<seq<string>> {
    if steps == [] then multiset{} else multiset(steps[0].members) + StepsMembers(steps[1..])
  }

  ghost predicate SmallestFirst(steps: seq<Step>) {
    Sorted(StepLess, steps)
  }

  lemma StepLessOrders()
    ensures Orders(StepLess)
  {
    forall a: Step, b: Step
      ensures !(StepLess(a, b) && StepLess(b, a))
    {
      Text.LessOrders(a.key, b.key, a.key);
    }
    forall a: Step, b: Step, c: Step | !StepLess(b, a) && !StepLess(c, b)
      ensures !StepLess(c, a)
    {
      Text.LessOrders(a.key, b.key, c.key);
      Text.LessOrders(c.key, a.key, b.key);
      Text.LessOrders(b.key, c.key, a.key);
    }
  }

  lemma {:induction false} InsertStepTotals(a: Step, steps: seq<Step>)
    ensures forall unit :: StepsTotal(Insert(StepLess, a, steps), unit) == Of(a.size, unit) + StepsTotal(steps, unit)
    ensures StepsMembers(Insert(StepLess, a, steps)) == multiset(a.members) + StepsMembers(steps)
  {
    if steps == [] || !StepLess(steps[0], a) {
      assert ([a] + steps)[1..] == steps;
    } else {
      InsertStepTotals(a, steps[1..]);
      var rest := Insert(StepLess, a, steps[1..]);
      assert ([steps[0]] + rest)[1..] == rest;
    }
  }

  lemma {:induction false} SortStepsTotals(steps: seq<Step>)
    ensures StepsMembers(SortSteps(steps)) == StepsMembers(steps)
    ensures forall unit :: StepsTotal(SortSteps(steps), unit) == StepsTotal(steps, unit)
  {
    if steps != [] {
      SortStepsTotals(steps[1..]);
      InsertStepTotals(steps[0], SortSteps(steps[1..]));
    }
  }

  // ---- Sums ----

  lemma BelowEither(path: seq<string>, a: seq<seq<string>>, b: seq<seq<string>>)
    ensures Below(path, a + b) <==> Below(path, a) || Below(path, b)
  {
    if i :| 0 <= i < |a| && a[i] <= path {
      assert (a + b)[i] <= path;
    }
    if i :| 0 <= i < |b| && b[i] <= path {
      assert (a + b)[|a| + i] <= path;
    }
  }

  /** What is below one or the other, when nothing is below both. */
  lemma {:induction false} SumApart(members: seq<Member>, a: seq<seq<string>>, b: seq<seq<string>>,
                                    never: seq<seq<string>>, unit: Unit)
    requires forall m :: m in members ==> !(Below(m.path, a) && Below(m.path, b))
    ensures Sum(members, a + b, never, unit) == Sum(members, a, never, unit) + Sum(members, b, never, unit)
    decreases |members|
  {
    hide Below;
    if members != [] {
      SumApart(members[1..], a, b, never, unit);
      BelowEither(members[0].path, a, b);
      assert members[0] in members;
    }
  }

  lemma CountSkips(m: Member, tops: seq<seq<string>>, never: seq<seq<string>>, skip: seq<string>, unit: Unit)
    requires skip <= m.path ==> Below(m.path, tops) && !Below(m.path, never)
    ensures Count(m, tops, never, unit) == Count(m, tops, never + [skip], unit) + Count(m, [skip], [], unit)
  {
    BelowEither(m.path, never, [skip]);
    BelowOne(m.path, skip);
    BelowNone(m.path);
  }

  /** What is below `skip` taken off, when all of it was counted. */
  lemma {:induction false} SumSkips(members: seq<Member>, tops: seq<seq<string>>, never: seq<seq<string>>,
                                    skip: seq<string>, unit: Unit)
    requires forall m :: m in members && skip <= m.path ==> Below(m.path, tops) && !Below(m.path, never)
    ensures Sum(members, tops, never, unit) == Sum(members, tops, never + [skip], unit) + Sum(members, [skip], [], unit)
    decreases |members|
  {
    hide Below, Count;
    if members != [] {
      assert members[0] in members;
      CountSkips(members[0], tops, never, skip, unit);
      SumSkips(members[1..], tops, never, skip, unit);
    }
  }

  lemma BelowOne(path: seq<string>, top: seq<string>)
    ensures Below(path, [top]) <==> top <= path
  {
    assert [top][0] == top;
  }

  lemma BelowNone(path: seq<string>)
    ensures !Below(path, [])
  {
  }

  /** Sums that count the same files are the same. */
  lemma {:induction false} SumSame(members: seq<Member>, a: seq<seq<string>>, b: seq<seq<string>>,
                                   nevera: seq<seq<string>>, neverb: seq<seq<string>>, unit: Unit)
    requires forall m :: m in members ==>
               (Below(m.path, a) && !Below(m.path, nevera) <==> Below(m.path, b) && !Below(m.path, neverb))
    ensures Sum(members, a, nevera, unit) == Sum(members, b, neverb, unit)
    decreases |members|
  {
    hide Below;
    if members != [] {
      SumSame(members[1..], a, b, nevera, neverb, unit);
      assert members[0] in members;
    }
  }

  // ---- The layout ----

  function PathsOf(source: seq<string>, contents: seq<Contents>): (paths: seq<seq<string>>)
    ensures |paths| == |contents| && forall i :: 0 <= i < |contents| ==> paths[i] == source + [contents[i].name]
  {
    seq(|contents|, i requires 0 <= i < |contents| => source + [contents[i].name])
  }

  function Folders(source: seq<string>, contents: seq<Contents>): seq<Step> {
    if contents == [] then []
    else
      var c := contents[|contents| - 1];
      Folders(source, contents[..|contents| - 1]) +
      (if IsFolder(c) then [Step(c.name, [source + [c.name]], c.size)] else [])
  }

  /** The files strictly inside a folder. */
  function InsideTotal(members: seq<Member>, source: seq<string>, never: seq<seq<string>>, unit: Unit): nat {
    if members == [] then 0
    else InsideTotal(members[1..], source, never, unit) +
         if source < members[0].path && !Below(members[0].path, never) then Amount(members[0], unit) else 0
  }

  function Hidden(source: seq<string>, contents: seq<Contents>): seq<seq<string>> {
    if contents == [] then []
    else
      var c := contents[|contents| - 1];
      Hidden(source, contents[..|contents| - 1]) + (if IsFolder(c) then [] else [source + [c.name]])
  }

  lemma {:induction false} HiddenHolds(source: seq<string>, contents: seq<Contents>, path: seq<string>)
    ensures path in Hidden(source, contents) <==>
            exists i :: 0 <= i < |contents| && !IsFolder(contents[i]) && path == source + [contents[i].name]
  {
    if contents != [] {
      var n := |contents| - 1;
      HiddenHolds(source, contents[..n], path);
      if i :| 0 <= i < n && !IsFolder(contents[i]) && path == source + [contents[i].name] {
        assert contents[..n][i] == contents[i];
      }
    }
  }

  lemma {:induction false} FoldersHold(source: seq<string>, contents: seq<Contents>, step: Step)
    requires step in Folders(source, contents)
    ensures exists i :: 0 <= i < |contents| && IsFolder(contents[i]) &&
              step == Step(contents[i].name, [source + [contents[i].name]], contents[i].size)
  {
    var n := |contents| - 1;
    if step in Folders(source, contents[..n]) {
      FoldersHold(source, contents[..n], step);
      var i :| 0 <= i < n && IsFolder(contents[..n][i]) &&
        step == Step(contents[..n][i].name, [source + [contents[..n][i].name]], contents[..n][i].size);
      assert contents[..n][i] == contents[i];
    } else {
      assert IsFolder(contents[n]) && step == Step(contents[n].name, [source + [contents[n].name]], contents[n].size);
    }
  }

  /** Nothing is at or below two different things in one folder. */
  lemma OneTop(source: seq<string>, a: string, b: string, path: seq<string>)
    ensures source + [a] <= path && source + [b] <= path ==> a == b
  {
    if source + [a] <= path && source + [b] <= path {
      assert path[|source|] == (source + [a])[|source|] && path[|source|] == (source + [b])[|source|];
    }
  }

  lemma NewTop(members: seq<Member>, source: seq<string>, contents: seq<Contents>, i: nat, tops: seq<seq<string>>)
    requires AreContents(members, source, contents) && i < |contents|
    requires forall t :: t in tops ==> exists j :: 0 <= j < i && t == source + [contents[j].name]
    ensures forall unit :: Sum(members, tops + [source + [contents[i].name]], [], unit) ==
                           Sum(members, tops, [], unit) + Of(contents[i].size, unit)
  {
    var top := source + [contents[i].name];
    forall m | m in members && Below(m.path, tops)
      ensures !(top <= m.path)
    {
      var k :| 0 <= k < |tops| && tops[k] <= m.path;
      assert tops[k] in tops;
      var j :| 0 <= j < i && tops[k] == source + [contents[j].name];
      OneTop(source, contents[j].name, contents[i].name, m.path);
    }
    forall m | m in members
      ensures Below(m.path, [top]) <==> top <= m.path
    {
      BelowOne(m.path, top);
    }
    SumApart(members, tops, [top], [], Bytes);
    SumApart(members, tops, [top], [], Files);
  }

  /** What the loop over the contents has gathered. */
  ghost predicate Gathered(members: seq<Member>, source: seq<string>, contents: seq<Contents>, folders: seq<Step>,
                           hidden: Step) {
    && folders == Folders(source, contents) && hidden.key == THE_REST && hidden.members == Hidden(source, contents)
    && StepsMembers(folders) + multiset(hidden.members) == multiset(PathsOf(source, contents))
    && Tallied(members, PathsOf(source, contents), folders, hidden)
  }

  ghost predicate Tallied(members: seq<Member>, all: seq<seq<string>>, folders: seq<Step>, hidden: Step) {
    forall unit ::
      && Of(hidden.size, unit) == Sum(members, hidden.members, [], unit)
      && StepsTotal(folders, unit) + Of(hidden.size, unit) == Sum(members, all, [], unit)
  }

  lemma {:induction false} StepsJoin(a: seq<Step>, b: seq<Step>)
    ensures StepsMembers(a + b) == StepsMembers(a) + StepsMembers(b)
    ensures forall unit :: StepsTotal(a + b, unit) == StepsTotal(a, unit) + StepsTotal(b, unit)
    decreases |a|
  {
    if a == [] {
      assert a + b == b;
    } else {
      var rest := a[1..] + b;
      assert a + b == [a[0]] + rest;
      assert ([a[0]] + rest)[1..] == rest;
      StepsJoin(a[1..], b);
    }
  }

  lemma OneStep(step: Step)
    ensures StepsMembers([step]) == multiset(step.members)
    ensures forall unit :: StepsTotal([step], unit) == Of(step.size, unit)
  {
    assert [step][1..] == [];
  }

  function After(source: seq<string>, entry: Contents, folders: seq<Step>): seq<Step> {
    if IsFolder(entry) then folders + [Step(entry.name, [source + [entry.name]], entry.size)] else folders
  }

  function AfterHidden(source: seq<string>, entry: Contents, hidden: Step): Step {
    if IsFolder(entry) then hidden
    else Step(THE_REST, hidden.members + [source + [entry.name]], Plus(hidden.size, entry.size))
  }

  lemma GathersNext(members: seq<Member>, source: seq<string>, contents: seq<Contents>, i: nat, folders: seq<Step>,
                    hidden: Step)
    requires AreContents(members, source, contents) && i < |contents|
    requires Gathered(members, source, contents[..i], folders, hidden)
    ensures Gathered(members, source, contents[..i + 1], After(source, contents[i], folders),
                     AfterHidden(source, contents[i], hidden))
  {
    var entry, some, more := contents[i], contents[..i], contents[..i + 1];
    var member := source + [entry.name];
    assert more[..i] == some && more[i] == entry;
    NewTop(members, source, contents, i, PathsOf(source, some));
    forall t | t in hidden.members
      ensures exists j :: 0 <= j < i && t == source + [contents[j].name]
    {
      HiddenHolds(source, some, t);
    }
    NewTop(members, source, contents, i, hidden.members);
    GrowsBy(source, some, more, entry);
    hide *;
    var all := PathsOf(source, some);
    if IsFolder(entry) {
      GathersFolder(members, source, some, more, entry, folders, hidden);
    } else {
      GathersHidden(members, source, some, more, entry, folders, hidden);
    }
  }

  lemma GathersFolder(members: seq<Member>, source: seq<string>, some: seq<Contents>, more: seq<Contents>,
                      entry: Contents, folders: seq<Step>, hidden: Step)
    requires Gathered(members, source, some, folders, hidden) && IsFolder(entry)
    requires var all := PathsOf(source, some) + [source + [entry.name]];
             && PathsOf(source, more) == all && Hidden(source, more) == Hidden(source, some)
             && Folders(source, more) == After(source, entry, Folders(source, some))
             && forall unit ::
                  Sum(members, all, [], unit) == Sum(members, PathsOf(source, some), [], unit) + Of(entry.size, unit)
    ensures Gathered(members, source, more, After(source, entry, folders), AfterHidden(source, entry, hidden))
  {
    var step := Step(entry.name, [source + [entry.name]], entry.size);
    StepsJoin(folders, [step]);
    OneStep(step);
    hide Sum, StepsTotal, StepsMembers, Folders, Hidden, IsFolder;
    assert Tallied(members, PathsOf(source, more), folders + [step], hidden);
  }

  lemma GathersHidden(members: seq<Member>, source: seq<string>, some: seq<Contents>, more: seq<Contents>,
                      entry: Contents, folders: seq<Step>, hidden: Step)
    requires Gathered(members, source, some, folders, hidden) && !IsFolder(entry)
    requires var member := source + [entry.name];
             var all := PathsOf(source, some) + [member];
             && PathsOf(source, more) == all && Hidden(source, more) == Hidden(source, some) + [member]
             && Folders(source, more) == Folders(source, some)
             && (forall unit ::
                   Sum(members, all, [], unit) == Sum(members, PathsOf(source, some), [], unit) + Of(entry.size, unit))
             && forall unit :: Sum(members, hidden.members + [member], [], unit) ==
                               Sum(members, hidden.members, [], unit) + Of(entry.size, unit)
    ensures Gathered(members, source, more, After(source, entry, folders), AfterHidden(source, entry, hidden))
  {
    hide Sum, StepsTotal, StepsMembers, Folders, Hidden, IsFolder;
    assert Tallied(members, PathsOf(source, more), folders, AfterHidden(source, entry, hidden));
  }

  lemma GrowsBy(source: seq<string>, some: seq<Contents>, more: seq<Contents>, entry: Contents)
    requires more == some + [entry]
    ensures PathsOf(source, more) == PathsOf(source, some) + [source + [entry.name]]
    ensures Folders(source, more) == After(source, entry, Folders(source, some))
    ensures Hidden(source, more) == Hidden(source, some) + if IsFolder(entry) then [] else [source + [entry.name]]
  {
    assert more[..|more| - 1] == some;
  }

  /** What is never restored is in what is hidden. */
  lemma NeverIsHidden(members: seq<Member>, source: seq<string>, contents: seq<Contents>, k: nat, m: Member)
    requires AreContents(members, source, contents) && k < |Never()| && m in members && source + Never()[k] <= m.path
    ensures Below(m.path, Hidden(source, contents)) && Below(m.path, PathsOf(source, contents))
    ensures !Below(m.path, NeverIn(source)[..k])
  {
    var never := source + Never()[k];
    assert m.path[|source|] == never[|source|] == Never()[k][0];
    assert source < m.path by {
      assert never[..|source|] == source && m.path[..|source|] == source;
    }
    var j :| 0 <= j < |contents| && contents[j].name == m.path[|source|];
    var top := source + [contents[j].name];
    assert top == m.path[..|source| + 1];
    HiddenHolds(source, contents, top);
    var h :| 0 <= h < |Hidden(source, contents)| && Hidden(source, contents)[h] == top;
    assert PathsOf(source, contents)[j] == top;
    if k == 1 {
      assert m.path[|source| + 2] == Never()[1][2];
      assert (source + Never()[0])[|source| + 2] == Never()[0][2];
      assert !(source + Never()[0] <= m.path);
    }
  }

  lemma SkipsNext(members: seq<Member>, source: seq<string>, contents: seq<Contents>, k: nat, tops: seq<seq<string>>,
                  unit: Unit)
    requires AreContents(members, source, contents) && k < |Never()|
    requires tops == Hidden(source, contents) || tops == PathsOf(source, contents)
    ensures Sum(members, tops, NeverIn(source)[..k], unit) ==
            Sum(members, tops, NeverIn(source)[..k + 1], unit) + Sum(members, [source + Never()[k]], [], unit)
  {
    forall m | m in members && source + Never()[k] <= m.path
      ensures Below(m.path, tops) && !Below(m.path, NeverIn(source)[..k])
    {
      NeverIsHidden(members, source, contents, k, m);
    }
    SumSkips(members, tops, NeverIn(source)[..k], source + Never()[k], unit);
    NextNever(source, k);
  }

  lemma NextNever(source: seq<string>, k: nat)
    requires k < |Never()|
    ensures NeverIn(source)[..k] + [source + Never()[k]] == NeverIn(source)[..k + 1]
  {
  }

  lemma NeverIsDotted(source: seq<string>, path: seq<string>)
    ensures Below(path, NeverIn(source)) ==> |path| > |source| && "." <= path[|source|]
  {
    if k :| 0 <= k < |NeverIn(source)| && NeverIn(source)[k] <= path {
      assert path[|source|] == NeverIn(source)[k][|source|] == Never()[k][0] == ".local";
    }
  }

  /** A visible folder holds nothing that is never restored. */
  lemma FolderKeepsAll(members: seq<Member>, source: seq<string>, contents: seq<Contents>, step: Step)
    requires AreContents(members, source, contents) && step in Folders(source, contents)
    ensures forall unit :: Of(step.size, unit) == Sum(members, step.members, NeverIn(source), unit)
  {
    FoldersHold(source, contents, step);
    var i :| 0 <= i < |contents| && IsFolder(contents[i]) &&
      step == Step(contents[i].name, [source + [contents[i].name]], contents[i].size);
    var top := source + [contents[i].name];
    forall m | m in members
      ensures Below(m.path, [top]) && !Below(m.path, []) <==> Below(m.path, [top]) && !Below(m.path, NeverIn(source))
    {
      NeverIsDotted(source, m.path);
      if Below(m.path, [top]) {
        assert m.path[|source|] == top[|source|];
      }
    }
    SumSame(members, [top], [top], [], NeverIn(source), Bytes);
    SumSame(members, [top], [top], [], NeverIn(source), Files);
  }

  lemma {:induction false} InsideIsBelow(members: seq<Member>, source: seq<string>, tops: seq<seq<string>>,
                                         never: seq<seq<string>>, unit: Unit)
    requires forall m :: m in members ==> (Below(m.path, tops) <==> source < m.path)
    ensures Sum(members, tops, never, unit) == InsideTotal(members, source, never, unit)
    decreases |members|
  {
    hide Below;
    if members != [] {
      InsideIsBelow(members[1..], source, tops, never, unit);
      assert members[0] in members;
    }
  }

  lemma AllInside(members: seq<Member>, source: seq<string>, contents: seq<Contents>, never: seq<seq<string>>)
    requires AreContents(members, source, contents)
    ensures forall unit ::
              Sum(members, PathsOf(source, contents), never, unit) == InsideTotal(members, source, never, unit)
  {
    var tops := PathsOf(source, contents);
    forall m | m in members
      ensures Below(m.path, tops) <==> source < m.path
    {
      if i :| 0 <= i < |tops| && tops[i] <= m.path {
        assert tops[i][..|source|] == source;
        assert m.path[..|source|] == source;
      }
      if source < m.path {
        var k :| 0 <= k < |members| && members[k] == m;
        var i :| 0 <= i < |contents| && contents[i].name == m.path[|source|];
        assert tops[i] == m.path[..|source| + 1];
      }
    }
    forall unit
      ensures Sum(members, tops, never, unit) == InsideTotal(members, source, never, unit)
    {
      InsideIsBelow(members, source, tops, never, unit);
    }
  }

  /** A folder that is not hidden has a step of its own. */
  predicate OwnStep(c: Contents) {
    c.kind.Dir? && (c.name == "" || c.name[0] != '.')
  }

  ghost predicate IsOwnStep(source: seq<string>, contents: seq<Contents>, step: Step) {
    exists c :: c in contents && OwnStep(c) && step.key == c.name && step.members == [source + [c.name]]
  }

  /** The first `n` steps are of the folders with one of their own, the fewest bytes
      first and by name where those are equal; and one more, if there is anything
      else, takes all of that. */
  ghost predicate InOrder(source: seq<string>, contents: seq<Contents>, steps: seq<Step>, n: nat) {
    && n <= |steps| <= n + 1
    && (forall i :: 0 <= i < n ==> IsOwnStep(source, contents, steps[i]))
    && (forall c :: c in contents && OwnStep(c) ==> exists i :: 0 <= i < n && steps[i].key == c.name)
    && (forall i, j :: 0 <= i < j < n ==>
          && steps[i].size.bytes <= steps[j].size.bytes
          && (steps[i].size.bytes == steps[j].size.bytes ==> !Text.Less(steps[j].key, steps[i].key)))
    && (n < |steps| ==>
          && steps[n].key == "."
          && forall path :: path in steps[n].members <==>
               exists c :: c in contents && !OwnStep(c) && path == source + [c.name])
    && (n == |steps| ==> forall c :: c in contents ==> OwnStep(c))
  }

  /** The bytes of the files at or below any of `tops` and none of `never`. */
  ghost function BytesIn(members: seq<Member>, tops: seq<seq<string>>, never: seq<seq<string>>): nat {
    if members == [] then 0
    else
      var m := members[0];
      BytesIn(members[1..], tops, never) +
      if m.kind == File && (exists top :: top in tops && top <= m.path) &&
         !(exists out :: out in never && out <= m.path)
      then m.size else 0
  }

  /** And how many there are. */
  ghost function FilesIn(members: seq<Member>, tops: seq<seq<string>>, never: seq<seq<string>>): nat {
    if members == [] then 0
    else
      var m := members[0];
      FilesIn(members[1..], tops, never) +
      if m.kind == File && (exists top :: top in tops && top <= m.path) &&
         !(exists out :: out in never && out <= m.path)
      then 1 else 0
  }

  lemma {:induction false} SumsAre(members: seq<Member>, tops: seq<seq<string>>, never: seq<seq<string>>)
    ensures Sum(members, tops, never, Bytes) == BytesIn(members, tops, never)
    ensures Sum(members, tops, never, Files) == FilesIn(members, tops, never)
  {
    if members != [] {
      SumsAre(members[1..], tops, never);
      BelowIs(members[0].path, tops);
      BelowIs(members[0].path, never);
      hide Below;
    }
  }

  lemma BelowIs(path: seq<string>, tops: seq<seq<string>>)
    ensures Below(path, tops) <==> exists top :: top in tops && top <= path
  {
    if i :| 0 <= i < |tops| && tops[i] <= path {
      assert tops[i] in tops;
    }
  }

  /** What a step says it holds: the files in it, but for Backtrack's own. */
  ghost predicate Holds(members: seq<Member>, source: seq<string>, step: Step) {
    var never := [source + [".local", "share", "backtrack"], source + [".local", "share", "backtrack-dev"]];
    && step.size.bytes == BytesIn(members, step.members, never)
    && step.size.files == FilesIn(members, step.members, never)
  }

  ghost predicate LaidOut(members: seq<Member>, source: seq<string>, contents: seq<Contents>, steps: seq<Step>) {
    && StepsMembers(steps) == multiset(PathsOf(source, contents))
    && (forall unit :: StepsTotal(steps, unit) == InsideTotal(members, source, NeverIn(source), unit))
    && (forall i, unit :: 0 <= i < |steps| ==>
          Of(steps[i].size, unit) == Sum(members, steps[i].members, NeverIn(source), unit))
    && exists n: nat :: InOrder(source, contents, steps, n)
  }

  /** The steps share out what is directly inside the home folder, each counts
      what is in it but for what is never restored, and together they count
      everything inside. */
  method Layout(ghost members: seq<Member>, source: seq<string>, contents: seq<Contents>, neverSizes: seq<Size>)
    returns (steps: seq<Step>)
    requires AreContents(members, source, contents)
    requires |neverSizes| == |Never()|
    requires forall i, unit :: 0 <= i < |Never()| ==>
               Of(neverSizes[i], unit) == Sum(members, [source + Never()[i]], [], unit)
    ensures LaidOut(members, source, contents, steps)
    ensures forall i :: 0 <= i < |steps| ==> Holds(members, source, steps[i])
  {
    hide AreContents, Sum, StepsTotal, StepsMembers, SortSteps, SmallestFirst, InsideTotal, Folders, Hidden;
    hide NeverIn, Never, Of, InOrder, Holds;
    var folders: seq<Step> := [];
    var hidden := Step(THE_REST, [], Size(0, 0));
    NothingGathered(members, source);
    assert contents[..0] == [];
    var i := 0;
    while i < |contents|
      invariant 0 <= i <= |contents|
      invariant Gathered(members, source, contents[..i], folders, hidden)
    {
      var entry := contents[i];
      GathersNext(members, source, contents, i, folders, hidden);
      var member := source + [entry.name];
      if IsFolder(entry) {
        folders := folders + [Step(entry.name, [member], entry.size)];
      } else {
        hidden := Step(THE_REST, hidden.members + [member], Plus(hidden.size, entry.size));
      }
      i := i + 1;
    }
    assert contents[..|contents|] == contents;
    NeverInAll(source);
    i := 0;
    while i < |Never()|
      invariant 0 <= i <= |Never()| && hidden.key == THE_REST && hidden.members == Hidden(source, contents)
      invariant Left(members, source, contents, folders, hidden, i)
    {
      LeftNext(members, source, contents, folders, hidden, i, neverSizes[i]);
      hidden := hidden.(size := Less(hidden.size, neverSizes[i]));
      i := i + 1;
    }
    steps := SortSteps(folders);
    if hidden.members != [] {
      steps := steps + [hidden];
    }
    Laid(members, source, contents, folders, hidden, steps);
    forall k | 0 <= k < |steps|
      ensures Holds(members, source, steps[k])
    {
      LaidHolds(members, source, contents, steps, k);
    }
  }

  lemma LaidHolds(members: seq<Member>, source: seq<string>, contents: seq<Contents>, steps: seq<Step>, k: nat)
    requires LaidOut(members, source, contents, steps) && k < |steps|
    ensures Holds(members, source, steps[k])
  {
    assert forall unit :: Of(steps[k].size, unit) == Sum(members, steps[k].members, NeverIn(source), unit);
    hide LaidOut, Sum;
    SumsAre(members, steps[k].members, NeverIn(source));
    assert Of(steps[k].size, Bytes) == steps[k].size.bytes && Of(steps[k].size, Files) == steps[k].size.files;
  }

  /** What is counted once the first `k` of what is never restored are taken off. */
  ghost predicate Left(members: seq<Member>, source: seq<string>, contents: seq<Contents>, folders: seq<Step>,
                       hidden: Step, k: nat)
    requires k <= |NeverIn(source)|
  {
    forall unit ::
      && Of(hidden.size, unit) == Sum(members, hidden.members, NeverIn(source)[..k], unit)
      && StepsTotal(folders, unit) + Of(hidden.size, unit) ==
         Sum(members, PathsOf(source, contents), NeverIn(source)[..k], unit)
  }

  lemma LeftNext(members: seq<Member>, source: seq<string>, contents: seq<Contents>, folders: seq<Step>, hidden: Step,
                 k: nat, size: Size)
    requires AreContents(members, source, contents) && k < |Never()| && hidden.members == Hidden(source, contents)
    requires Left(members, source, contents, folders, hidden, k)
    requires forall unit :: Of(size, unit) == Sum(members, [source + Never()[k]], [], unit)
    ensures Left(members, source, contents, folders, hidden.(size := Less(hidden.size, size)), k + 1)
  {
    hide AreContents, Hidden, Sum, StepsTotal, Never, NeverIn, Of;
    forall unit
      ensures Sum(members, hidden.members, NeverIn(source)[..k], unit) ==
              Sum(members, hidden.members, NeverIn(source)[..k + 1], unit) + Of(size, unit)
      ensures Sum(members, PathsOf(source, contents), NeverIn(source)[..k], unit) ==
              Sum(members, PathsOf(source, contents), NeverIn(source)[..k + 1], unit) + Of(size, unit)
    {
      SkipsNext(members, source, contents, k, hidden.members, unit);
      SkipsNext(members, source, contents, k, PathsOf(source, contents), unit);
    }
  }

  lemma Laid(members: seq<Member>, source: seq<string>, contents: seq<Contents>, folders: seq<Step>, hidden: Step,
             steps: seq<Step>)
    requires AreContents(members, source, contents) && folders == Folders(source, contents)
    requires hidden.key == THE_REST && hidden.members == Hidden(source, contents)
    requires Left(members, source, contents, folders, hidden, |NeverIn(source)|)
    requires StepsMembers(folders) + multiset(hidden.members) == multiset(PathsOf(source, contents))
    requires steps == if hidden.members != [] then SortSteps(folders) + [hidden] else SortSteps(folders)
    ensures LaidOut(members, source, contents, steps)
  {
    var sorted := SortSteps(folders);
    var rest := if hidden.members != [] then [hidden] else [];
    assert steps == sorted + rest;
    StepLessOrders();
    SortSorts(StepLess, folders);
    SortStepsTotals(folders);
    hide *;
    LaidTotals(members, source, contents, folders, hidden, sorted, rest);
    forall k, unit | 0 <= k < |steps|
      ensures Of(steps[k].size, unit) == Sum(members, steps[k].members, NeverIn(source), unit)
    {
      LaidStep(members, source, contents, folders, hidden, sorted, rest, k, unit);
    }
    IsInOrder(source, contents, steps, sorted, rest);
    IsLaidOut(members, source, contents, steps, sorted, rest);
  }

  lemma IsLaidOut(members: seq<Member>, source: seq<string>, contents: seq<Contents>, steps: seq<Step>,
                  sorted: seq<Step>, rest: seq<Step>)
    requires StepsMembers(steps) == multiset(PathsOf(source, contents))
    requires forall unit :: StepsTotal(steps, unit) == InsideTotal(members, source, NeverIn(source), unit)
    requires forall i, unit :: 0 <= i < |steps| ==>
               Of(steps[i].size, unit) == Sum(members, steps[i].members, NeverIn(source), unit)
    requires InOrder(source, contents, steps, |sorted|)
    ensures LaidOut(members, source, contents, steps)
  {
    hide InOrder, StepsMembers, StepsTotal, Sum, NeverIn, InsideTotal, PathsOf;
  }

  lemma IsInOrder(source: seq<string>, contents: seq<Contents>, steps: seq<Step>, sorted: seq<Step>, rest: seq<Step>)
    requires steps == sorted + rest && SmallestFirst(sorted) && multiset(sorted) == multiset(Folders(source, contents))
    requires |rest| <= 1 && (rest == [] <==> Hidden(source, contents) == [])
    requires rest != [] ==> rest[0].key == THE_REST && rest[0].members == Hidden(source, contents)
    ensures InOrder(source, contents, steps, |sorted|)
  {
    hide Folders, Hidden, SmallestFirst, OwnStep, IsOwnStep;
    var n := |sorted|;
    BySize(sorted);
    StepsAreFolders(source, contents, sorted);
    FoldersHaveSteps(source, contents, sorted);
    RestIsHidden(source, contents);
    assert forall i :: 0 <= i < n ==> steps[i] == sorted[i];
    assert n < |steps| ==> steps[n] == rest[0];
    forall c | c in contents && OwnStep(c)
      ensures exists i :: 0 <= i < n && steps[i].key == c.name
    {
      var i :| 0 <= i < n && sorted[i].key == c.name;
      assert steps[i].key == c.name;
    }
  }

  lemma BySize(sorted: seq<Step>)
    requires SmallestFirst(sorted)
    ensures forall i, j :: 0 <= i < j < |sorted| ==>
              && sorted[i].size.bytes <= sorted[j].size.bytes
              && (sorted[i].size.bytes == sorted[j].size.bytes ==> !Text.Less(sorted[j].key, sorted[i].key))
  {
    forall i, j | 0 <= i < j < |sorted|
      ensures !StepLess(sorted[j], sorted[i])
    {
    }
  }

  lemma StepsAreFolders(source: seq<string>, contents: seq<Contents>, sorted: seq<Step>)
    requires multiset(sorted) == multiset(Folders(source, contents))
    ensures forall i :: 0 <= i < |sorted| ==> IsOwnStep(source, contents, sorted[i])
  {
    hide Folders;
    forall i | 0 <= i < |sorted|
      ensures IsOwnStep(source, contents, sorted[i])
    {
      assert sorted[i] in multiset(sorted);
      FoldersHold(source, contents, sorted[i]);
      var k :| 0 <= k < |contents| && IsFolder(contents[k]) &&
               sorted[i] == Step(contents[k].name, [source + [contents[k].name]], contents[k].size);
      assert contents[k] in contents && OwnStep(contents[k]);
    }
  }

  lemma FoldersHaveSteps(source: seq<string>, contents: seq<Contents>, sorted: seq<Step>)
    requires multiset(sorted) == multiset(Folders(source, contents))
    ensures forall c :: c in contents && OwnStep(c) ==> exists i :: 0 <= i < |sorted| && sorted[i].key == c.name
  {
    hide Folders;
    forall c | c in contents && OwnStep(c)
      ensures exists i :: 0 <= i < |sorted| && sorted[i].key == c.name
    {
      HasStep(source, contents, c);
      var step := Step(c.name, [source + [c.name]], c.size);
      assert step in multiset(sorted);
      var i :| 0 <= i < |sorted| && sorted[i] == step;
    }
  }

  lemma RestIsHidden(source: seq<string>, contents: seq<Contents>)
    ensures forall path :: path in Hidden(source, contents) <==>
              exists c :: c in contents && !OwnStep(c) && path == source + [c.name]
    ensures Hidden(source, contents) == [] ==> forall c :: c in contents ==> OwnStep(c)
  {
    hide Hidden;
    forall path
      ensures path in Hidden(source, contents) <==>
              exists c :: c in contents && !OwnStep(c) && path == source + [c.name]
    {
      HiddenHolds(source, contents, path);
      if i :| 0 <= i < |contents| && !IsFolder(contents[i]) && path == source + [contents[i].name] {
        assert contents[i] in contents && !OwnStep(contents[i]);
      }
      if c :| c in contents && !OwnStep(c) && path == source + [c.name] {
        var i :| 0 <= i < |contents| && contents[i] == c;
      }
    }
    forall c | c in contents && !OwnStep(c)
      ensures source + [c.name] in Hidden(source, contents)
    {
    }
  }

  lemma {:induction false} HasStep(source: seq<string>, contents: seq<Contents>, c: Contents)
    requires c in contents && OwnStep(c)
    ensures Step(c.name, [source + [c.name]], c.size) in Folders(source, contents)
  {
    var n := |contents| - 1;
    if c in contents[..n] {
      HasStep(source, contents[..n], c);
    }
  }

  lemma LaidTotals(members: seq<Member>, source: seq<string>, contents: seq<Contents>, folders: seq<Step>, hidden: Step,
                   sorted: seq<Step>, rest: seq<Step>)
    requires AreContents(members, source, contents)
    requires Left(members, source, contents, folders, hidden, |NeverIn(source)|)
    requires StepsMembers(folders) + multiset(hidden.members) == multiset(PathsOf(source, contents))
    requires StepsMembers(sorted) == StepsMembers(folders)
    requires forall unit :: StepsTotal(sorted, unit) == StepsTotal(folders, unit)
    requires rest == if hidden.members != [] then [hidden] else []
    ensures StepsMembers(sorted + rest) == multiset(PathsOf(source, contents))
    ensures forall unit :: StepsTotal(sorted + rest, unit) == InsideTotal(members, source, NeverIn(source), unit)
  {
    NeverInAll(source);
    AllInside(members, source, contents, NeverIn(source));
    StepsJoin(sorted, rest);
    OneStep(hidden);
    NoSteps(members, NeverIn(source));
    hide AreContents, Sum, Never, NeverIn, InsideTotal, PathsOf, StepsTotal, StepsMembers;
  }

  lemma LaidStep(members: seq<Member>, source: seq<string>, contents: seq<Contents>, folders: seq<Step>, hidden: Step,
                 sorted: seq<Step>, rest: seq<Step>, k: nat, unit: Unit)
    requires AreContents(members, source, contents) && folders == Folders(source, contents)
    requires Left(members, source, contents, folders, hidden, |NeverIn(source)|)
    requires multiset(sorted) == multiset(folders) && (rest == [] || rest == [hidden]) && k < |sorted + rest|
    ensures var step := (sorted + rest)[k];
            Of(step.size, unit) == Sum(members, step.members, NeverIn(source), unit)
  {
    hide AreContents, Folders, Sum, StepsTotal, Never, NeverIn, PathsOf;
    NeverInAll(source);
    if k < |sorted| {
      assert sorted[k] in multiset(sorted);
      assert sorted[k] in folders;
      FolderKeepsAll(members, source, contents, sorted[k]);
    } else {
      assert (sorted + rest)[k] == hidden;
    }
  }

  lemma NothingGathered(members: seq<Member>, source: seq<string>)
    ensures Gathered(members, source, [], [], Step(THE_REST, [], Size(0, 0)))
  {
    NoSteps(members, []);
  }

  lemma {:induction false} NoSteps(members: seq<Member>, never: seq<seq<string>>)
    ensures StepsMembers([]) == multiset{}
    ensures forall unit :: StepsTotal([], unit) == 0 && Sum(members, [], never, unit) == 0
    decreases |members|
  {
    if members != [] {
      NoSteps(members[1..], never);
    }
  }

  lemma NeverInAll(source: seq<string>)
    ensures |NeverIn(source)| == |Never()| && NeverIn(source)[..0] == [] &&
            NeverIn(source)[..|Never()|] == NeverIn(source)
  {
  }
}
