/** Walking the backup sources (crates/backtrack-core/src/walk.rs): a walk with
    an explicit stack, which prunes as it goes, proved against what is below
    each source. The filesystem is one immutable tree. */
module Walk {
  import opened Text
  import opened Sorting
  import Recovery

  /** A path, as its components. */
  type Path = seq<string>

  datatype Kind = File | Symlink | Other

  datatype Node =
    | Dir(device: nat, readable: bool, entries: seq<Entry>)
    | Leaf(kind: Kind, device: nat, size: nat)

  /** What reading a folder gives: an entry, one that has gone by the time it is
      looked at, or an error in its place. */
  datatype Entry = Here(name: string, node: Node) | Vanished(name: string) | Broken

  /** What the walk hands on: a path in the form the catalogue holds, and what
      was found there. A folder counts for no bytes. */
  datatype Found = FoundDir(path: Path) | FoundLeaf(path: Path, kind: Kind, size: nat)

  datatype Spec = Spec(
    sources: seq<Path>,
    excludes: Path -> bool,
    oneFileSystem: bool,
    never: seq<Path>,
    includeDirs: bool)

  /** Walking one place as though it were another. */
  datatype Mapping = Mapping(from: Path, to: Path)

  predicate IsWithin(path: Path, dir: Path) {
    dir <= path
  }

  /** Where `path` is as far as the rules and the catalogue go. */
  function RealPath(path: Path, asIf: Option<Mapping>): Path {
    if asIf.Some? && asIf.value.from <= path then asIf.value.to + path[|asIf.value.from|..] else path
  }

  predicate Never(spec: Spec, actual: Path) {
    exists i :: 0 <= i < |spec.never| && IsWithin(actual, spec.never[i])
  }

  function FoundAt(path: Path, node: Node): Found {
    match node
    case Dir(_, _, _) => FoundDir(path)
    case Leaf(kind, _, size) => FoundLeaf(path, kind, size)
  }

  // ---- The filesystem ----

  function Child(entries: seq<Entry>, name: string): Option<Node> {
    if entries == [] then None
    else if entries[0].Here? && entries[0].name == name then Some(entries[0].node)
    else Child(entries[1..], name)
  }

  function Lookup(root: Node, path: Path): Option<Node>
    decreases |path|
  {
    if path == [] then Some(root)
    else if root.Leaf? then None
    else match Child(root.entries, path[0])
      case None => None
      case Some(child) => Lookup(child, path[1..])
  }

  /** Reading a folder: an error for anything that is not one, or is closed. */
  function ReadDir(root: Node, path: Path): Option<seq<Entry>> {
    match Lookup(root, path)
    case Some(Dir(_, true, entries)) => Some(entries)
    case _ => None
  }

  ghost predicate Distinct(entries: seq<Entry>) {
    forall i, j :: 0 <= i < j < |entries| && entries[i].Here? && entries[j].Here? ==> entries[i].name != entries[j].name
  }

  /** No two entries of a folder have one name. */
  ghost predicate Sane(node: Node) {
    node.Dir? ==> Distinct(node.entries) && forall e :: e in node.entries && e.Here? ==> Sane(e.node)
  }

  // ---- What is below a source, by recursion ----

  datatype Tally = Tally(items: multiset<Found>, unreadable: nat) {
    function Plus(other: Tally): Tally {
      Tally(items + other.items, unreadable + other.unreadable)
    }
  }

  const NOTHING := Tally(multiset{}, 0)
  const CLOSED := Tally(multiset{}, 1)

  /** Everything in scope below the folder at `path`. */
  function Below(spec: Spec, asIf: Option<Mapping>, device: nat, path: Path, node: Node): Tally
    decreases node, 1
  {
    if node.Dir? && node.readable then Among(spec, asIf, device, path, node.entries) else CLOSED
  }

  function Among(spec: Spec, asIf: Option<Mapping>, device: nat, path: Path, entries: seq<Entry>): Tally
    decreases entries, 0
  {
    if entries == [] then NOTHING
    else One(spec, asIf, device, path, entries[0]).Plus(Among(spec, asIf, device, path, entries[1..]))
  }

  /** One entry of a folder and, if it is one, everything below it. */
  function One(spec: Spec, asIf: Option<Mapping>, device: nat, path: Path, entry: Entry): Tally
    decreases entry, 0
  {
    match entry
    case Broken => CLOSED
    case Vanished(name) => if Never(spec, RealPath(path + [name], asIf)) then NOTHING else CLOSED
    case Here(name, node) =>
      if !InScope(spec, asIf, device, path + [name], node) then NOTHING
      else
        Own(spec, RealPath(path + [name], asIf), node).Plus(
          if node.Dir? then Below(spec, asIf, device, path + [name], node) else NOTHING)
  }

  /** Whether the rules let the walk have what is at `path`. */
  predicate InScope(spec: Spec, asIf: Option<Mapping>, device: nat, path: Path, node: Node) {
    var actual := RealPath(path, asIf);
    !Never(spec, actual) && (spec.oneFileSystem ==> node.device == device) && !spec.excludes(actual)
  }

  /** What it hands on of one entry in scope, apart from what is below it. */
  function Own(spec: Spec, actual: Path, node: Node): Tally {
    if node.Dir? && !spec.includeDirs then NOTHING else Tally(multiset{FoundAt(actual, node)}, 0)
  }

  /** What one source comes to. */
  function Source(root: Node, spec: Spec, asIf: Option<Mapping>, source: Path): Tally {
    match Lookup(root, source)
    case None => CLOSED
    case Some(node) =>
      var actual := RealPath(source, asIf);
      var own := if spec.includeDirs && actual != [] && !Never(spec, actual) && !spec.excludes(actual)
        then Tally(multiset{FoundAt(actual, node)}, 0) else NOTHING;
      if spec.includeDirs && !node.Dir? then own
      else own.Plus(Below(spec, asIf, node.device, source, node))
  }

  function Sources(root: Node, spec: Spec, asIf: Option<Mapping>, n: nat): Tally
    requires n <= |spec.sources|
  {
    if n == 0 then NOTHING else Sources(root, spec, asIf, n - 1).Plus(Source(root, spec, asIf, spec.sources[n - 1]))
  }

  // ---- The walk with a stack ----

  /** The nodes of a tree: what bounds the walk. */
  function Size(node: Node): nat
    decreases node, 1
  {
    if node.Leaf? then 1 else 1 + SizeAmong(node.entries)
  }

  function SizeAmong(entries: seq<Entry>): nat
    decreases entries, 0
  {
    if entries == [] then 0
    else (if entries[0].Here? then Size(entries[0].node) else 0) + SizeAmong(entries[1..])
  }

  function Left(root: Node, stack: seq<Path>): nat {
    if stack == [] then 0
    else (match Lookup(root, stack[|stack| - 1]) case Some(node) => Size(node) case None => 1) +
         Left(root, stack[..|stack| - 1])
  }

  function BelowPath(root: Node, spec: Spec, asIf: Option<Mapping>, device: nat, path: Path): Tally {
    match Lookup(root, path)
    case Some(node) => Below(spec, asIf, device, path, node)
    case None => CLOSED
  }

  function BelowAll(root: Node, spec: Spec, asIf: Option<Mapping>, device: nat, stack: seq<Path>): Tally {
    if stack == [] then NOTHING
    else
      var n := |stack| - 1;
      BelowAll(root, spec, asIf, device, stack[..n]).Plus(BelowPath(root, spec, asIf, device, stack[n]))
  }

  lemma PushAdds(root: Node, spec: Spec, asIf: Option<Mapping>, device: nat, stack: seq<Path>, path: Path)
    ensures BelowAll(root, spec, asIf, device, stack + [path]) ==
            BelowAll(root, spec, asIf, device, stack).Plus(BelowPath(root, spec, asIf, device, path))
    ensures Left(root, stack + [path]) ==
            Left(root, stack) + (match Lookup(root, path) case Some(node) => Size(node) case None => 1)
  {
    assert (stack + [path])[..|stack|] == stack;
  }

  lemma {:induction false} ChildIsHere(entries: seq<Entry>, i: nat)
    requires Distinct(entries) && i < |entries| && entries[i].Here?
    ensures Child(entries, entries[i].name) == Some(entries[i].node)
    decreases i
  {
    if i > 0 {
      assert entries[1..][i - 1] == entries[i];
      ChildIsHere(entries[1..], i - 1);
    }
  }

  lemma {:induction false} LookupJoins(root: Node, path: Path, more: Path)
    ensures Lookup(root, path + more) ==
            match Lookup(root, path) case None => None case Some(node) => Lookup(node, more)
    decreases |path|
  {
    if path == [] {
      assert path + more == more;
    } else if root.Dir? && Child(root.entries, path[0]).Some? {
      LookupJoins(Child(root.entries, path[0]).value, path[1..], more);
      assert (path + more)[1..] == path[1..] + more;
    }
  }

  lemma EntryAt(root: Node, path: Path, entries: seq<Entry>, i: nat)
    requires ReadDir(root, path) == Some(entries) && Distinct(entries) && i < |entries| && entries[i].Here?
    ensures Lookup(root, path + [entries[i].name]) == Some(entries[i].node)
  {
    ChildIsHere(entries, i);
    LookupJoins(root, path, [entries[i].name]);
    assert Lookup(entries[i].node, []) == Some(entries[i].node);
    assert [entries[i].name][1..] == [];
  }

  /** Every folder the walk comes to has distinct names in it. */
  ghost predicate AllDistinct(root: Node) {
    forall path: Path :: ReadDir(root, path).Some? ==> Distinct(ReadDir(root, path).value)
  }

  lemma {:induction false} SaneAt(root: Node, path: Path)
    requires Sane(root)
    ensures Lookup(root, path).Some? ==> Sane(Lookup(root, path).value)
    decreases |path|
  {
    if path != [] && root.Dir? && Child(root.entries, path[0]).Some? {
      SaneChild(root.entries, path[0]);
      SaneAt(Child(root.entries, path[0]).value, path[1..]);
    }
  }

  lemma {:induction false} SaneChild(entries: seq<Entry>, name: string)
    requires forall e :: e in entries && e.Here? ==> Sane(e.node)
    requires Child(entries, name).Some?
    ensures Sane(Child(entries, name).value)
  {
    if entries[0].Here? && entries[0].name == name {
      assert entries[0] in entries;
    } else {
      SaneChild(entries[1..], name);
    }
  }

  lemma SaneIsDistinct(root: Node)
    requires Sane(root)
    ensures AllDistinct(root)
  {
    forall path: Path | ReadDir(root, path).Some?
      ensures Distinct(ReadDir(root, path).value)
    {
      SaneAt(root, path);
    }
  }

  /** What becomes of one entry of a folder: what it adds to the stack, to what
      is handed on and to the count of what could not be read. */
  method Take(dir: Path, entry: Entry, device: nat, spec: Spec, asIf: Option<Mapping>)
    returns (push: bool, add: seq<Found>, closed: nat)
    ensures push ==> entry.Here? && entry.node.Dir?
    ensures |add| <= 1
    ensures One(spec, asIf, device, dir, entry) ==
            Tally(multiset(add), closed).Plus(
              if push then Below(spec, asIf, device, dir + [entry.name], entry.node) else NOTHING)
  {
    hide Below;
    push, add, closed := false, [], 0;
    if entry.Broken? {
      closed := 1;
      return;
    }
    var path := dir + [entry.name];
    var actual := RealPath(path, asIf);
    if Never(spec, actual) {
      return;
    }
    if entry.Vanished? {
      closed := 1;
      return;
    }
    if spec.oneFileSystem && entry.node.device != device {
      return;
    }
    if spec.excludes(actual) {
      return;
    }
    if entry.node.Dir? {
      push := true;
      if !spec.includeDirs {
        return;
      }
    }
    add := [FoundAt(actual, entry.node)];
    assert multiset(add) == multiset{FoundAt(actual, entry.node)};
  }

  lemma PlusRegroups(a: Tally, b: Tally, one: Tally, more: Tally, rest: Tally)
    ensures a.Plus(b).Plus(one.Plus(more).Plus(rest)) == a.Plus(one).Plus(b.Plus(more)).Plus(rest)
    ensures a.Plus(b).Plus(one) == a.Plus(b.Plus(one))
    ensures a.Plus(NOTHING) == a
  {
  }

  lemma AddsUp(found: seq<Found>, add: seq<Found>, closed: nat, more: nat)
    ensures Tally(multiset(found), closed).Plus(Tally(multiset(add), more)) ==
            Tally(multiset(found + add), closed + more)
  {
  }

  /** The walk of one source, on a stack. `stop` says of each entry handed on,
      by how many came before it, whether whatever is taking them calls the
      walk off there. */
  method WalkFrom(root: Node, source: Path, device: nat, spec: Spec, asIf: Option<Mapping>, stop: nat -> bool,
                  out: seq<Found>, unreadable: nat) returns (found: seq<Found>, closed: nat, broke: bool)
    requires AllDistinct(root)
    requires forall k :: 0 <= k < |out| ==> !stop(k)
    ensures forall k :: 0 <= k < |found| ==> !stop(k)
    ensures !broke ==>
              Tally(multiset(found), closed) ==
              Tally(multiset(out), unreadable).Plus(BelowPath(root, spec, asIf, device, source))
    ensures broke ==>
              stop(|found|) && |found| < |out| + |BelowPath(root, spec, asIf, device, source).items|
  {
    hide *;
    found, closed, broke := out, unreadable, false;
    ghost var total := Tally(multiset(out), unreadable).Plus(BelowPath(root, spec, asIf, device, source));
    var stack := [source];
    OneOnStack(root, spec, asIf, device, source, Tally(multiset(out), unreadable));
    while stack != []
      invariant forall k :: 0 <= k < |found| ==> !stop(k)
      invariant Tally(multiset(found), closed).Plus(BelowAll(root, spec, asIf, device, stack)) == total
      decreases Left(root, stack)
    {
      var dir := stack[|stack| - 1];
      ghost var size := Left(root, stack);
      PushAdds(root, spec, asIf, device, stack[..|stack| - 1], dir);
      assert stack[..|stack| - 1] + [dir] == stack;
      stack := stack[..|stack| - 1];
      FolderOf(root, spec, asIf, device, dir);
      var below := BelowPath(root, spec, asIf, device, dir);
      PlusRegroups(Tally(multiset(found), closed), BelowAll(root, spec, asIf, device, stack), below, NOTHING, NOTHING);
      var listing := ReadDir(root, dir);
      if listing.None? {
        ClosedCounts(multiset(found), closed, BelowAll(root, spec, asIf, device, stack));
        closed := closed + 1;
        continue;
      }
      var entries := listing.value;
      var i := 0;
      assert entries[0..] == entries;
      while i < |entries|
        invariant 0 <= i <= |entries|
        invariant forall k :: 0 <= k < |found| ==> !stop(k)
        invariant Tally(multiset(found), closed).Plus(BelowAll(root, spec, asIf, device, stack))
                    .Plus(Among(spec, asIf, device, dir, entries[i..])) == total
        invariant Left(root, stack) + SizeAmong(entries[i..]) < size
      {
        var entry := entries[i];
        FirstAmong(spec, asIf, device, dir, entries, i);
        var push, add, more := Take(dir, entry, device, spec, asIf);
        ghost var here := BelowAll(root, spec, asIf, device, stack);
        ghost var rest := Among(spec, asIf, device, dir, entries[i + 1..]);
        ghost var deeper := if push then Below(spec, asIf, device, dir + [entry.name], entry.node) else NOTHING;
        PlusRegroups(Tally(multiset(found), closed), here, Tally(multiset(add), more), deeper, rest);
        PlusRegroups(here, NOTHING, NOTHING, NOTHING, NOTHING);
        if push {
          Listed(root, dir, entries);
          EntryAt(root, dir, entries, i);
          PushAdds(root, spec, asIf, device, stack, dir + [entry.name]);
          OnStack(root, spec, asIf, device, dir + [entry.name], entry.node);
          stack := stack + [dir + [entry.name]];
        }
        AddsUp(found, add, closed, more);
        if add != [] && stop(|found|) {
          broke := true;
          MoreToCome(found, add, Tally(multiset(found), closed).Plus(Tally(multiset(add), more)),
            BelowAll(root, spec, asIf, device, stack), rest, total);
          AtMost(multiset(out), unreadable, BelowPath(root, spec, asIf, device, source), total);
          return;
        }
        found, closed := found + add, closed + more;
        i := i + 1;
      }
      NoneLeft(spec, asIf, device, dir, entries[i..], Tally(multiset(found), closed),
               BelowAll(root, spec, asIf, device, stack));
    }
    NothingLeft(root, spec, asIf, device, stack, Tally(multiset(found), closed));
  }

  lemma OneOnStack(root: Node, spec: Spec, asIf: Option<Mapping>, device: nat, source: Path, tally: Tally)
    ensures tally.Plus(BelowAll(root, spec, asIf, device, [source])) ==
            tally.Plus(BelowPath(root, spec, asIf, device, source))
  {
    PushAdds(root, spec, asIf, device, [], source);
    assert [] + [source] == [source];
  }

  lemma NothingLeft(root: Node, spec: Spec, asIf: Option<Mapping>, device: nat, stack: seq<Path>, tally: Tally)
    requires stack == []
    ensures tally.Plus(BelowAll(root, spec, asIf, device, stack)) == tally
  {
  }

  lemma NoneLeft(spec: Spec, asIf: Option<Mapping>, device: nat, dir: Path, entries: seq<Entry>, a: Tally, b: Tally)
    requires entries == []
    ensures a.Plus(b).Plus(Among(spec, asIf, device, dir, entries)) == a.Plus(b)
    ensures SizeAmong(entries) == 0
  {
  }

  lemma ClosedCounts(items: multiset<Found>, closed: nat, rest: Tally)
    ensures Tally(items, closed).Plus(rest.Plus(CLOSED)) == Tally(items, closed + 1).Plus(rest)
  {
  }

  lemma OnStack(root: Node, spec: Spec, asIf: Option<Mapping>, device: nat, path: Path, node: Node)
    requires Lookup(root, path) == Some(node)
    ensures BelowPath(root, spec, asIf, device, path) == Below(spec, asIf, device, path, node)
  {
  }

  lemma Listed(root: Node, dir: Path, entries: seq<Entry>)
    requires AllDistinct(root) && ReadDir(root, dir) == Some(entries)
    ensures Distinct(entries)
  {
  }

  /** Being called off leaves at least one entry untaken. */
  lemma MoreToCome(found: seq<Found>, add: seq<Found>, taken: Tally, below: Tally, rest: Tally, total: Tally)
    requires add != [] && taken.items == multiset(found + add) && taken.Plus(below).Plus(rest) == total
    ensures |found| < |total.items|
  {
    assert multiset(found + add) <= total.items;
    assert |multiset(found + add)| == |found| + |add|;
    assert total.items == multiset(found + add) + (total.items - multiset(found + add));
  }

  lemma AtMost(items: multiset<Found>, closed: nat, below: Tally, total: Tally)
    requires total == Tally(items, closed).Plus(below)
    ensures |total.items| == |items| + |below.items|
  {
  }

  /** What reading the folder on top of the stack leaves to do. */
  lemma FolderOf(root: Node, spec: Spec, asIf: Option<Mapping>, device: nat, dir: Path)
    ensures match ReadDir(root, dir)
            case None => BelowPath(root, spec, asIf, device, dir) == CLOSED
            case Some(entries) =>
              BelowPath(root, spec, asIf, device, dir) == Among(spec, asIf, device, dir, entries) &&
              Lookup(root, dir).Some? && Size(Lookup(root, dir).value) == 1 + SizeAmong(entries)
    ensures Lookup(root, dir).Some? ==> Size(Lookup(root, dir).value) > 0
  {
  }

  lemma FirstAmong(spec: Spec, asIf: Option<Mapping>, device: nat, dir: Path, entries: seq<Entry>, i: nat)
    requires i < |entries|
    ensures Among(spec, asIf, device, dir, entries[i..]) ==
            One(spec, asIf, device, dir, entries[i]).Plus(Among(spec, asIf, device, dir, entries[i + 1..]))
    ensures SizeAmong(entries[i..]) ==
            (if entries[i].Here? then Size(entries[i].node) else 0) + SizeAmong(entries[i + 1..])
  {
    assert entries[i..][1..] == entries[i + 1..];
  }

  /** Every source in turn. */
  method Visit(root: Node, spec: Spec, asIf: Option<Mapping>, stop: nat -> bool)
    returns (found: seq<Found>, closed: nat, broke: bool)
    requires AllDistinct(root)
    ensures forall k :: 0 <= k < |found| ==> !stop(k)
    ensures !broke ==> Tally(multiset(found), closed) == Sources(root, spec, asIf, |spec.sources|)
    ensures broke ==> stop(|found|) && |found| < |Sources(root, spec, asIf, |spec.sources|).items|
  {
    hide *;
    found, closed, broke := [], 0, false;
    NoSources(root, spec, asIf);
    for n := 0 to |spec.sources|
      invariant !broke
      invariant forall k :: 0 <= k < |found| ==> !stop(k)
      invariant Tally(multiset(found), closed) == Sources(root, spec, asIf, n)
    {
      ghost var before := Tally(multiset(found), closed);
      var source := spec.sources[n];
      NextSource(root, spec, asIf, n);
      SourceParts(root, spec, asIf, source);
      var at := Lookup(root, source);
      PlusAssociates(before, CLOSED, CLOSED);
      if at.None? {
        closed := closed + 1;
        continue;
      }
      var node := at.value;
      var add := OwnSource(spec, RealPath(source, asIf), node);
      AddsUp(found, add, closed, 0);
      if add != [] && stop(|found|) {
        broke := true;
        MoreFrom(root, spec, asIf, n, found, add);
        return;
      }
      found := found + add;
      if spec.includeDirs && !node.Dir? {
        continue;
      }
      OnStack(root, spec, asIf, node.device, source, node);
      PlusAssociates(before, Tally(multiset(add), 0), BelowPath(root, spec, asIf, node.device, source));
      ghost var out, unreadable := found, closed;
      found, closed, broke := WalkFrom(root, source, node.device, spec, asIf, stop, found, closed);
      if broke {
        MoreBelow(root, spec, asIf, n, out, unreadable, node.device);
        return;
      }
    }
  }

  /** A full listing's own row for a source. */
  function OwnSource(spec: Spec, actual: Path, node: Node): (own: seq<Found>)
    ensures |own| <= 1
  {
    if spec.includeDirs && actual != [] && !Never(spec, actual) && !spec.excludes(actual)
    then [FoundAt(actual, node)]
    else []
  }

  lemma NoSources(root: Node, spec: Spec, asIf: Option<Mapping>)
    ensures Sources(root, spec, asIf, 0) == Tally(multiset([]), 0)
  {
  }

  lemma NextSource(root: Node, spec: Spec, asIf: Option<Mapping>, n: nat)
    requires n < |spec.sources|
    ensures Sources(root, spec, asIf, n + 1) ==
            Sources(root, spec, asIf, n).Plus(Source(root, spec, asIf, spec.sources[n]))
  {
  }

  lemma PlusHolds(a: Tally, b: Tally)
    ensures a.items <= a.Plus(b).items
  {
  }

  lemma PlusAssociates(a: Tally, b: Tally, c: Tally)
    ensures a.Plus(b).Plus(c) == a.Plus(b.Plus(c))
    ensures a.Plus(CLOSED) == Tally(a.items, a.unreadable + 1)
  {
  }

  lemma SourceParts(root: Node, spec: Spec, asIf: Option<Mapping>, source: Path)
    ensures Source(root, spec, asIf, source) ==
            match Lookup(root, source)
            case None => CLOSED
            case Some(node) =>
              var own := Tally(multiset(OwnSource(spec, RealPath(source, asIf), node)), 0);
              if spec.includeDirs && !node.Dir? then own
              else own.Plus(Below(spec, asIf, node.device, source, node))
  {
  }

  lemma {:induction false} SourcesGrow(root: Node, spec: Spec, asIf: Option<Mapping>, n: nat, m: nat)
    requires n <= m <= |spec.sources|
    ensures Sources(root, spec, asIf, n).items <= Sources(root, spec, asIf, m).items
    decreases m
  {
    hide *;
    if n < m {
      SourcesGrow(root, spec, asIf, n, m - 1);
      NextSource(root, spec, asIf, m - 1);
      PlusHolds(Sources(root, spec, asIf, m - 1), Source(root, spec, asIf, spec.sources[m - 1]));
    }
  }

  lemma FewerOf(a: multiset<Found>, b: multiset<Found>)
    requires a <= b
    ensures |a| <= |b|
  {
    assert b == a + (b - a);
  }

  lemma MoreFrom(root: Node, spec: Spec, asIf: Option<Mapping>, n: nat, found: seq<Found>, add: seq<Found>)
    requires n < |spec.sources| && Sources(root, spec, asIf, n).items == multiset(found) && add != []
    requires Lookup(root, spec.sources[n]).Some?
    requires add == OwnSource(spec, RealPath(spec.sources[n], asIf), Lookup(root, spec.sources[n]).value)
    ensures |found| < |Sources(root, spec, asIf, |spec.sources|).items|
  {
    SourceParts(root, spec, asIf, spec.sources[n]);
    assert multiset(found) + multiset(add) <= Sources(root, spec, asIf, n + 1).items;
    SourcesGrow(root, spec, asIf, n + 1, |spec.sources|);
    FewerOf(multiset(found) + multiset(add), Sources(root, spec, asIf, |spec.sources|).items);
  }

  lemma MoreBelow(root: Node, spec: Spec, asIf: Option<Mapping>, n: nat, out: seq<Found>, unreadable: nat, device: nat)
    requires n < |spec.sources| && Lookup(root, spec.sources[n]).Some? &&
             Lookup(root, spec.sources[n]).value.device == device
    requires !(spec.includeDirs && !Lookup(root, spec.sources[n]).value.Dir?)
    requires multiset(out) ==
             Sources(root, spec, asIf, n).items +
             multiset(OwnSource(spec, RealPath(spec.sources[n], asIf), Lookup(root, spec.sources[n]).value))
    ensures |out| + |BelowPath(root, spec, asIf, device, spec.sources[n]).items| <=
            |Sources(root, spec, asIf, |spec.sources|).items|
  {
    SourceParts(root, spec, asIf, spec.sources[n]);
    var below := BelowPath(root, spec, asIf, device, spec.sources[n]).items;
    assert multiset(out) + below <= Sources(root, spec, asIf, n + 1).items;
    SourcesGrow(root, spec, asIf, n + 1, |spec.sources|);
    FewerOf(multiset(out) + below, Sources(root, spec, asIf, |spec.sources|).items);
  }

  /** By path, as text. */
  predicate Earlier(a: Found, b: Found) {
    Less(Recovery.Path(a.path), Recovery.Path(b.path))
  }

  lemma EarlierOrders()
    ensures Orders(Earlier)
  {
    forall a: Found, b: Found, c: Found
      ensures !(Earlier(a, b) && Earlier(b, a))
      ensures !Earlier(b, a) && !Earlier(c, b) ==> !Earlier(c, a)
    {
      var x, y, z := Recovery.Path(a.path), Recovery.Path(b.path), Recovery.Path(c.path);
      LessOrders(x, y, z);
      LessOrders(y, x, z);
      LessOrders(y, z, x);
      LessOrders(z, x, y);
    }
  }

  /** A walk: all of it, in the order of its paths. */
  method Walk(root: Node, spec: Spec, asIf: Option<Mapping>) returns (items: seq<Found>, unreadable: nat)
    requires Sane(root)
    ensures Tally(multiset(items), unreadable) == Sources(root, spec, asIf, |spec.sources|)
    ensures forall f :: f in items <==>
            exists i :: 0 <= i < |spec.sources| && FoundOf(root, spec, asIf, spec.sources[i], f)
    ensures forall i, j :: 0 <= i < j < |items| ==> !Less(Recovery.Path(items[j].path), Recovery.Path(items[i].path))
  {
    hide FoundOf, Source, Sources;
    SaneIsDistinct(root);
    EarlierOrders();
    var broke;
    items, unreadable, broke := Visit(root, spec, asIf, _ => false);
    SortSorts(Earlier, items);
    items := Sort(Earlier, items);
    forall f
      ensures f in items <==> exists i :: 0 <= i < |spec.sources| && FoundOf(root, spec, asIf, spec.sources[i], f)
    {
      SourcesExactly(root, spec, asIf, |spec.sources|, f);
      assert f in multiset(items) <==> f in items;
    }
  }

  // ---- Measuring ----

  function Weight(f: Found): nat {
    if f.FoundLeaf? && f.kind == File then f.size else 0
  }

  function Counts(f: Found): nat {
    if f.FoundLeaf? && f.kind == File then 1 else 0
  }

  /** The sum of `weight` over a bag of what was found. */
  ghost function Total(items: multiset<Found>, weight: Found -> nat): nat
    decreases |items|
  {
    if |items| == 0 then 0
    else weight(Pick(items)) + Total(items - multiset{Pick(items)}, weight)
  }

  ghost function Pick(items: multiset<Found>): (f: Found)
    requires |items| > 0
    ensures f in items
  {
    var f :| f in items;
    f
  }

  lemma TotalPicks(items: multiset<Found>, weight: Found -> nat) returns (g: Found)
    requires |items| > 0
    ensures g in items && Total(items, weight) == weight(g) + Total(items - multiset{g}, weight)
  {
    g := Pick(items);
  }

  lemma {:induction false} TotalAdds(items: multiset<Found>, f: Found, weight: Found -> nat)
    ensures Total(items + multiset{f}, weight) == Total(items, weight) + weight(f)
    decreases |items|
  {
    hide Total;
    var all := items + multiset{f};
    var g := TotalPicks(all, weight);
    if g == f {
      assert all - multiset{g} == items;
    } else {
      var rest := items - multiset{g};
      assert all - multiset{g} == rest + multiset{f} && items == rest + multiset{g};
      TotalAdds(rest, f, weight);
      TotalAdds(rest, g, weight);
    }
  }

  lemma NoTotal(weight: Found -> nat)
    ensures Total(multiset([]), weight) == 0
  {
  }

  /** The files' sizes added up, and how many files there are: folders, links and
      whatever else there is count for nothing. */
  ghost function Sizes(found: seq<Found>): nat {
    if found == [] then 0
    else Sizes(found[1..]) + match found[0] case FoundLeaf(_, File, size) => size case _ => 0
  }

  ghost function Files(found: seq<Found>): nat {
    if found == [] then 0
    else Files(found[1..]) + match found[0] case FoundLeaf(_, File, _) => 1 case _ => 0
  }

  lemma {:induction false} TotalsAre(found: seq<Found>)
    ensures Total(multiset(found), Weight) == Sizes(found) && Total(multiset(found), Counts) == Files(found)
  {
    hide Total;
    if found == [] {
      NoTotal(Weight);
      NoTotal(Counts);
    } else {
      TotalsAre(found[1..]);
      assert found == [found[0]] + found[1..];
      assert multiset(found) == multiset(found[1..]) + multiset{found[0]};
      TotalAdds(multiset(found[1..]), found[0], Weight);
      TotalAdds(multiset(found[1..]), found[0], Counts);
    }
  }

  datatype Measured = Measured(bytes: nat, files: nat)

  /** The size of a backup, or none at all if it was called off: exactly if the
      flag was up at one of the entries it came to. */
  method Measure(root: Node, spec: Spec, cancelled: nat -> bool) returns (measured: Option<Measured>)
    requires Sane(root)
    ensures var items := Sources(root, spec, None, |spec.sources|).items;
            && (measured.None? <==> exists k :: 0 <= k < |items| && cancelled(k))
            && (measured.Some? ==> forall found :: multiset(found) == items ==>
                  measured.value == Measured(Sizes(found), Files(found)))
  {
    SaneIsDistinct(root);
    hide *;
    var found, unreadable, broke := Visit(root, spec, None, cancelled);
    ghost var items := Sources(root, spec, None, |spec.sources|).items;
    if broke {
      return None;
    }
    var bytes, files := AddUp(found);
    forall order | multiset(order) == items
      ensures bytes == Sizes(order) && files == Files(order)
    {
      TotalsAre(order);
    }
    return Some(Measured(bytes, files));
  }

  method AddUp(found: seq<Found>) returns (bytes: nat, files: nat)
    ensures bytes == Total(multiset(found), Weight) && files == Total(multiset(found), Counts)
  {
    hide Total;
    NoTotal(Weight);
    NoTotal(Counts);
    bytes, files := 0, 0;
    for i := 0 to |found|
      invariant bytes == Total(multiset(found[..i]), Weight)
      invariant files == Total(multiset(found[..i]), Counts)
    {
      assert found[..i + 1] == found[..i] + [found[i]];
      assert multiset(found[..i + 1]) == multiset(found[..i]) + multiset{found[i]};
      TotalAdds(multiset(found[..i]), found[i], Weight);
      TotalAdds(multiset(found[..i]), found[i], Counts);
      if found[i].FoundLeaf? && found[i].kind == File {
        bytes := bytes + found[i].size;
        files := files + 1;
      }
    }
    assert found[..|found|] == found;
  }

  // ---- Exactly what a walk finds ----

  /** The rules let the walk have a path: no folder never to be walked holds it,
      no pattern excludes it, and it is on the source's file system, if that is all
      there is to be of it. */
  ghost predicate Allowed(spec: Spec, device: nat, actual: Path, node: Node) {
    && (forall i :: 0 <= i < |spec.never| ==> !(spec.never[i] <= actual))
    && !spec.excludes(actual)
    && (spec.oneFileSystem ==> node.device == device)
  }

  /** What is at `rel` below the folder at `path` is `target`, every folder on
      the way there can be read, and every component of the way, `target`
      itself among them, is allowed. */
  ghost predicate Reached(spec: Spec, asIf: Option<Mapping>, device: nat, path: Path, node: Node, rel: Path,
                          target: Node) {
    && rel != []
    && Lookup(node, rel) == Some(target)
    && (forall k :: 0 <= k < |rel| ==> ReadDir(node, rel[..k]).Some?)
    && (forall k :: 0 < k <= |rel| ==> ScopeAt(spec, asIf, device, path, node, rel[..k]))
  }

  ghost predicate ScopeAt(spec: Spec, asIf: Option<Mapping>, device: nat, path: Path, node: Node, rel: Path) {
    Lookup(node, rel).Some? && Allowed(spec, device, RealPath(path + rel, asIf), Lookup(node, rel).value)
  }

  /** The first step of the way, and the rest of it from there. */
  lemma FirstStep(spec: Spec, asIf: Option<Mapping>, device: nat, path: Path, node: Node, rel: Path, target: Node)
    requires rel != [] && node.Dir? && node.readable && Child(node.entries, rel[0]).Some?
    ensures var child := Child(node.entries, rel[0]).value;
            Reached(spec, asIf, device, path, node, rel, target) <==>
            && InScope(spec, asIf, device, path + [rel[0]], child)
            && (if |rel| == 1 then child == target
                else Reached(spec, asIf, device, path + [rel[0]], child, rel[1..], target))
  {
    var child := Child(node.entries, rel[0]).value;
    var first, rest := path + [rel[0]], rel[1..];
    forall k | 0 < k <= |rel|
      ensures Lookup(node, rel[..k]) == Lookup(child, rest[..k - 1])
      ensures path + rel[..k] == first + rest[..k - 1]
    {
      assert rel[..k][1..] == rest[..k - 1];
    }
    assert rel[..1] == [rel[0]] && rest[..0] == [] && first + [] == first;
    assert rel[..0] == [] && rel[..|rel|] == rel;
    if Reached(spec, asIf, device, path, node, rel, target) {
      assert ScopeAt(spec, asIf, device, path, node, rel[..1]);
      if |rel| > 1 {
        forall k | 0 <= k < |rest|
          ensures ReadDir(child, rest[..k]).Some?
        {
          assert ReadDir(node, rel[..k + 1]).Some?;
        }
        forall k | 0 < k <= |rest|
          ensures ScopeAt(spec, asIf, device, first, child, rest[..k])
        {
          assert ScopeAt(spec, asIf, device, path, node, rel[..k + 1]);
        }
      }
    }
    if InScope(spec, asIf, device, first, child) &&
      (if |rel| == 1 then child == target else Reached(spec, asIf, device, first, child, rest, target)) {
      forall k | 0 <= k < |rel|
        ensures ReadDir(node, rel[..k]).Some?
      {
        if k > 0 {
          assert ReadDir(child, rest[..k - 1]).Some?;
        }
      }
      forall k | 0 < k <= |rel|
        ensures ScopeAt(spec, asIf, device, path, node, rel[..k])
      {
        if k > 1 {
          assert ScopeAt(spec, asIf, device, first, child, rest[..k - 1]);
        }
      }
    }
  }

  ghost predicate Emits(spec: Spec, asIf: Option<Mapping>, path: Path, rel: Path, target: Node, f: Found) {
    match target
    case Dir(_, _, _) => spec.includeDirs && f == FoundDir(RealPath(path + rel, asIf))
    case Leaf(kind, _, size) => f == FoundLeaf(RealPath(path + rel, asIf), kind, size)
  }

  lemma {:induction false} BelowIsReached(spec: Spec, asIf: Option<Mapping>, device: nat, path: Path, node: Node,
                                          f: Found)
    returns (rel: Path, target: Node)
    requires Sane(node) && f in Below(spec, asIf, device, path, node).items
    ensures Reached(spec, asIf, device, path, node, rel, target) && Emits(spec, asIf, path, rel, target, f)
    decreases node, 1
  {
    var i := AmongWhich(spec, asIf, device, path, node.entries, f);
    var entry := node.entries[i];
    ChildIsHere(node.entries, i);
    if f in Own(spec, RealPath(path + [entry.name], asIf), entry.node).items {
      rel, target := [entry.name], entry.node;
      FirstStep(spec, asIf, device, path, node, rel, target);
    } else {
      assert entry in node.entries;
      rel, target := BelowIsReached(spec, asIf, device, path + [entry.name], entry.node, f);
      assert ([entry.name] + rel)[1..] == rel;
      assert path + [entry.name] + rel == path + ([entry.name] + rel);
      rel := [entry.name] + rel;
      FirstStep(spec, asIf, device, path, node, rel, target);
    }
  }

  lemma {:induction false} AmongWhich(spec: Spec, asIf: Option<Mapping>, device: nat, path: Path, entries: seq<Entry>,
                                      f: Found)
    returns (i: nat)
    requires f in Among(spec, asIf, device, path, entries).items
    ensures i < |entries| && f in One(spec, asIf, device, path, entries[i]).items && entries[i].Here?
    decreases |entries|
  {
    if f in One(spec, asIf, device, path, entries[0]).items {
      i := 0;
    } else {
      i := AmongWhich(spec, asIf, device, path, entries[1..], f);
      i := i + 1;
    }
  }

  lemma {:induction false} OneIsAmong(spec: Spec, asIf: Option<Mapping>, device: nat, path: Path, entries: seq<Entry>,
                                      name: string)
    requires Child(entries, name).Some?
    ensures One(spec, asIf, device, path, Here(name, Child(entries, name).value)).items <=
            Among(spec, asIf, device, path, entries).items
    decreases |entries|
  {
    if !(entries[0].Here? && entries[0].name == name) {
      OneIsAmong(spec, asIf, device, path, entries[1..], name);
    }
  }

  lemma StartsReadable(spec: Spec, asIf: Option<Mapping>, device: nat, path: Path, node: Node, rel: Path, target: Node)
    requires Reached(spec, asIf, device, path, node, rel, target)
    ensures rel != [] && node.Dir? && node.readable && Child(node.entries, rel[0]).Some?
  {
    assert rel[..0] == [] && ReadDir(node, rel[..0]).Some?;
  }

  lemma TargetIsOne(spec: Spec, asIf: Option<Mapping>, device: nat, path: Path, name: string, target: Node, f: Found)
    requires InScope(spec, asIf, device, path + [name], target) && Emits(spec, asIf, path, [name], target, f)
    ensures f in One(spec, asIf, device, path, Here(name, target)).items
  {
    assert f in Own(spec, RealPath(path + [name], asIf), target).items;
  }

  lemma BelowIsOne(spec: Spec, asIf: Option<Mapping>, device: nat, path: Path, name: string, child: Node, f: Found)
    requires InScope(spec, asIf, device, path + [name], child) && child.Dir?
    requires f in Below(spec, asIf, device, path + [name], child).items
    ensures f in One(spec, asIf, device, path, Here(name, child)).items
  {
    hide InScope, RealPath, Own;
  }

  lemma EmitsFurther(spec: Spec, asIf: Option<Mapping>, path: Path, rel: Path, target: Node, f: Found)
    requires rel != [] && Emits(spec, asIf, path, rel, target, f)
    ensures Emits(spec, asIf, path + [rel[0]], rel[1..], target, f)
  {
    assert path + [rel[0]] + rel[1..] == path + rel;
  }

  lemma {:induction false} ReachedIsBelow(spec: Spec, asIf: Option<Mapping>, device: nat, path: Path, node: Node,
                                          rel: Path, target: Node, f: Found)
    requires Reached(spec, asIf, device, path, node, rel, target) && Emits(spec, asIf, path, rel, target, f)
    ensures f in Below(spec, asIf, device, path, node).items
    decreases |rel|
  {
    StartsReadable(spec, asIf, device, path, node, rel, target);
    FirstStep(spec, asIf, device, path, node, rel, target);
    var child := Child(node.entries, rel[0]).value;
    hide Reached, Emits, InScope, One, Among, Child;
    if |rel| == 1 {
      assert rel == [rel[0]];
      TargetIsOne(spec, asIf, device, path, rel[0], target, f);
    } else {
      EmitsFurther(spec, asIf, path, rel, target, f);
      ReachedIsBelow(spec, asIf, device, path + [rel[0]], child, rel[1..], target, f);
      StartsReadable(spec, asIf, device, path + [rel[0]], child, rel[1..], target);
      BelowIsOne(spec, asIf, device, path, rel[0], child, f);
    }
    OneIsAmong(spec, asIf, device, path, node.entries, rel[0]);
  }

  /** What is found below a source is exactly what can be reached with no
      component of the way out of scope: folders among it when they are asked
      for. */
  lemma FoundExactly(spec: Spec, asIf: Option<Mapping>, device: nat, path: Path, node: Node, f: Found)
    requires Sane(node)
    ensures f in Below(spec, asIf, device, path, node).items <==>
            exists rel, target ::
              Reached(spec, asIf, device, path, node, rel, target) && Emits(spec, asIf, path, rel, target, f)
  {
    if f in Below(spec, asIf, device, path, node).items {
      var rel, target := BelowIsReached(spec, asIf, device, path, node, f);
    }
    if rel, target :| Reached(spec, asIf, device, path, node, rel, target) && Emits(spec, asIf, path, rel, target, f) {
      ReachedIsBelow(spec, asIf, device, path, node, rel, target, f);
    }
  }

  /** A source's own row: handed on of a walk that takes folders, unless the source
      is the root of everything, in a folder never to be walked or excluded. */
  ghost predicate OwnRow(spec: Spec, actual: Path, node: Node, f: Found) {
    && spec.includeDirs && actual != []
    && (forall i :: 0 <= i < |spec.never| ==> !(spec.never[i] <= actual))
    && !spec.excludes(actual)
    && match node
       case Dir(_, _, _) => f == FoundDir(actual)
       case Leaf(kind, _, size) => f == FoundLeaf(actual, kind, size)
  }

  /** What a walk is to come to of one source that is there. */
  ghost predicate FoundOf(root: Node, spec: Spec, asIf: Option<Mapping>, source: Path, f: Found) {
    && Lookup(root, source).Some?
    && var node := Lookup(root, source).value;
       (OwnRow(spec, RealPath(source, asIf), node, f) ||
        exists rel, target ::
          Reached(spec, asIf, node.device, source, node, rel, target) && Emits(spec, asIf, source, rel, target, f))
  }

  lemma SourceExactly(root: Node, spec: Spec, asIf: Option<Mapping>, source: Path, f: Found)
    requires Sane(root)
    ensures f in Source(root, spec, asIf, source).items <==> FoundOf(root, spec, asIf, source, f)
  {
    if Lookup(root, source).Some? {
      var node := Lookup(root, source).value;
      SaneAt(root, source);
      FoundExactly(spec, asIf, node.device, source, node, f);
      hide RealPath, Reached, Emits, Sane, Lookup, Among;
      assert OwnRow(spec, RealPath(source, asIf), node, f) <==>
             (spec.includeDirs && RealPath(source, asIf) != [] && !Never(spec, RealPath(source, asIf)) &&
              !spec.excludes(RealPath(source, asIf)) && f == FoundAt(RealPath(source, asIf), node));
    }
  }

  lemma {:induction false} SourcesExactly(root: Node, spec: Spec, asIf: Option<Mapping>, n: nat, f: Found)
    requires Sane(root) && n <= |spec.sources|
    ensures f in Sources(root, spec, asIf, n).items <==>
            exists i :: 0 <= i < n && FoundOf(root, spec, asIf, spec.sources[i], f)
  {
    hide FoundOf, Source, Sane;
    if n > 0 {
      SourcesExactly(root, spec, asIf, n - 1, f);
      SourceExactly(root, spec, asIf, spec.sources[n - 1], f);
    }
  }

  // ---- When nothing goes unread ----

  /** A folder that can be read, and each of its entries, but those in a folder
      never to be walked that are gone. */
  ghost predicate ReadsWhole(spec: Spec, asIf: Option<Mapping>, path: Path, node: Node) {
    && node.Dir? && node.readable
    && forall e :: e in node.entries ==>
         match e
         case Here(_, _) => true
         case Broken => false
         case Vanished(name) =>
           exists i :: 0 <= i < |spec.never| && spec.never[i] <= RealPath(path + [name], asIf)
  }

  /** The folder and every folder reached below it are read whole. */
  ghost predicate AllRead(spec: Spec, asIf: Option<Mapping>, device: nat, path: Path, node: Node) {
    && ReadsWhole(spec, asIf, path, node)
    && forall rel, target :: Reached(spec, asIf, device, path, node, rel, target) && target.Dir? ==>
         ReadsWhole(spec, asIf, path + rel, target)
  }

  lemma {:induction false} AmongRead(spec: Spec, asIf: Option<Mapping>, device: nat, path: Path, entries: seq<Entry>)
    ensures Among(spec, asIf, device, path, entries).unreadable == 0 <==>
            forall e :: e in entries ==> One(spec, asIf, device, path, e).unreadable == 0
  {
    hide One;
    if entries != [] {
      AmongRead(spec, asIf, device, path, entries[1..]);
      assert Among(spec, asIf, device, path, entries).unreadable ==
             One(spec, asIf, device, path, entries[0]).unreadable +
             Among(spec, asIf, device, path, entries[1..]).unreadable;
      assert entries[0] in entries && forall e :: e in entries[1..] ==> e in entries;
      assert forall e :: e in entries ==> e == entries[0] || e in entries[1..];
    }
  }

  /** Below a folder nothing is counted as unread if and only if it and every folder
      reached below it are read whole. */
  lemma {:induction false} NothingUnreadIff(spec: Spec, asIf: Option<Mapping>, device: nat, path: Path, node: Node)
    requires Sane(node)
    ensures Below(spec, asIf, device, path, node).unreadable == 0 <==> AllRead(spec, asIf, device, path, node)
    decreases node
  {
    if node.Dir? && node.readable {
      AmongRead(spec, asIf, device, path, node.entries);
      forall e | e in node.entries && e.Here? && e.node.Dir?
        ensures Below(spec, asIf, device, path + [e.name], e.node).unreadable == 0 <==>
                AllRead(spec, asIf, device, path + [e.name], e.node)
      {
        NothingUnreadIff(spec, asIf, device, path + [e.name], e.node);
      }
      if forall e :: e in node.entries ==> One(spec, asIf, device, path, e).unreadable == 0 {
        UnreadNone(spec, asIf, device, path, node);
      }
      if AllRead(spec, asIf, device, path, node) {
        forall e | e in node.entries
          ensures One(spec, asIf, device, path, e).unreadable == 0
        {
          if e.Here? && e.node.Dir? && InScope(spec, asIf, device, path + [e.name], e.node) {
            ReadBelow(spec, asIf, device, path, node, e);
          }
        }
      }
    }
  }

  lemma UnreadNone(spec: Spec, asIf: Option<Mapping>, device: nat, path: Path, node: Node)
    requires Sane(node) && node.Dir? && node.readable
    requires forall e :: e in node.entries ==> One(spec, asIf, device, path, e).unreadable == 0
    requires forall e :: e in node.entries && e.Here? && e.node.Dir? ==>
               (Below(spec, asIf, device, path + [e.name], e.node).unreadable == 0 <==>
                AllRead(spec, asIf, device, path + [e.name], e.node))
    ensures AllRead(spec, asIf, device, path, node)
  {
    hide Reached, Below, RealPath, Sane;
    forall rel, target | Reached(spec, asIf, device, path, node, rel, target) && target.Dir?
      ensures ReadsWhole(spec, asIf, path + rel, target)
    {
      StartsReadable(spec, asIf, device, path, node, rel, target);
      FirstStep(spec, asIf, device, path, node, rel, target);
      var e := ChildEntry(node.entries, rel[0]);
      assert One(spec, asIf, device, path, e).unreadable == 0;
      if |rel| == 1 {
        assert rel == [rel[0]];
      } else {
        assert e.node.Dir? by {
          StartsReadable(spec, asIf, device, path + [rel[0]], e.node, rel[1..], target);
        }
        assert path + [rel[0]] + rel[1..] == path + rel;
      }
    }
    assert ReadsWhole(spec, asIf, path, node) by {
      forall e | e in node.entries
        ensures e.Here? || (e.Vanished? && Never(spec, RealPath(path + [e.name], asIf)))
      {
        assert One(spec, asIf, device, path, e).unreadable == 0;
      }
    }
  }

  lemma {:induction false} ChildEntry(entries: seq<Entry>, name: string) returns (e: Entry)
    requires Child(entries, name).Some?
    ensures e in entries && e == Here(name, Child(entries, name).value)
  {
    if entries[0].Here? && entries[0].name == name {
      e := entries[0];
    } else {
      e := ChildEntry(entries[1..], name);
    }
  }

  lemma ReadBelow(spec: Spec, asIf: Option<Mapping>, device: nat, path: Path, node: Node, e: Entry)
    requires Sane(node) && node.Dir? && node.readable && AllRead(spec, asIf, device, path, node)
    requires e in node.entries && e.Here? && e.node.Dir? && InScope(spec, asIf, device, path + [e.name], e.node)
    ensures AllRead(spec, asIf, device, path + [e.name], e.node)
  {
    var i :| 0 <= i < |node.entries| && node.entries[i] == e;
    ChildIsHere(node.entries, i);
    FirstStep(spec, asIf, device, path, node, [e.name], e.node);
    hide Reached, Sane, RealPath;
    assert [e.name][0] == e.name && |[e.name]| == 1;
    assert ReadsWhole(spec, asIf, path + [e.name], e.node);
    forall rel, target | Reached(spec, asIf, device, path + [e.name], e.node, rel, target) && target.Dir?
      ensures ReadsWhole(spec, asIf, path + [e.name] + rel, target)
    {
      NotNothing(spec, asIf, device, path + [e.name], e.node, rel, target);
      var way := [e.name] + rel;
      FirstStep(spec, asIf, device, path, node, way, target);
      assert way[0] == e.name && way[1..] == rel && path + way == path + [e.name] + rel;
    }
  }

  lemma NotNothing(spec: Spec, asIf: Option<Mapping>, device: nat, path: Path, node: Node, rel: Path, target: Node)
    requires Reached(spec, asIf, device, path, node, rel, target)
    ensures rel != []
  {
  }

  // ---- Each of them once ----

  /** The mapping, if there is one, takes everything below `path` along. */
  predicate MapsAll(asIf: Option<Mapping>, path: Path) {
    asIf.Some? ==> asIf.value.from <= path
  }

  lemma RealPathJoins(asIf: Option<Mapping>, path: Path, rel: Path)
    requires MapsAll(asIf, path)
    ensures RealPath(path + rel, asIf) == RealPath(path, asIf) + rel && MapsAll(asIf, path + rel)
  {
    if asIf.Some? {
      var from := asIf.value.from;
      assert (path + rel)[..|from|] == path[..|from|];
      assert (path + rel)[|from|..] == path[|from|..] + rel;
    }
  }

  /** Everything found among some entries is at one of their names. */
  lemma {:induction false} AtItsName(spec: Spec, asIf: Option<Mapping>, device: nat, path: Path, entry: Entry, f: Found)
    requires (entry.Here? ==> Sane(entry.node)) && MapsAll(asIf, path) &&
             f in One(spec, asIf, device, path, entry).items
    ensures entry.Here? && RealPath(path, asIf) + [entry.name] <= f.path
    ensures f in Own(spec, RealPath(path + [entry.name], asIf), entry.node).items <==>
            f.path == RealPath(path, asIf) + [entry.name]
  {
    RealPathJoins(asIf, path, [entry.name]);
    var below := Below(spec, asIf, device, path + [entry.name], entry.node).items;
    if entry.node.Dir? && f in below {
      var rel, target := BelowIsReached(spec, asIf, device, path + [entry.name], entry.node, f);
      RealPathJoins(asIf, path + [entry.name], rel);
    }
  }

  lemma {:induction false} OnceBelow(spec: Spec, asIf: Option<Mapping>, device: nat, path: Path, node: Node, f: Found)
    requires Sane(node) && MapsAll(asIf, path)
    ensures Below(spec, asIf, device, path, node).items[f] <= 1
    decreases node, 2
  {
    if node.Dir? && node.readable {
      OnceAmong(spec, asIf, device, path, node.entries, f);
    }
  }

  lemma {:induction false} OnceAmong(spec: Spec, asIf: Option<Mapping>, device: nat, path: Path, entries: seq<Entry>,
                                     f: Found)
    requires Distinct(entries) && (forall e :: e in entries && e.Here? ==> Sane(e.node)) && MapsAll(asIf, path)
    ensures Among(spec, asIf, device, path, entries).items[f] <= 1
    decreases entries, 1
  {
    if entries != [] {
      var rest := Among(spec, asIf, device, path, entries[1..]).items;
      assert entries[0] in entries;
      OnceAmong(spec, asIf, device, path, entries[1..], f);
      if f in One(spec, asIf, device, path, entries[0]).items {
        AtItsName(spec, asIf, device, path, entries[0], f);
        OnceOne(spec, asIf, device, path, entries[0], f);
        if f in rest {
          var i := AmongWhich(spec, asIf, device, path, entries[1..], f);
          SameName(spec, asIf, device, path, entries[0], entries[1..][i], f);
        }
      }
    }
  }

  lemma SameName(spec: Spec, asIf: Option<Mapping>, device: nat, path: Path, a: Entry, b: Entry, f: Found)
    requires a.Here? && Sane(a.node) && b.Here? && Sane(b.node) && MapsAll(asIf, path)
    requires f in One(spec, asIf, device, path, a).items && f in One(spec, asIf, device, path, b).items
    ensures a.name == b.name
  {
    AtItsName(spec, asIf, device, path, a, f);
    AtItsName(spec, asIf, device, path, b, f);
    var actual := RealPath(path, asIf);
    assert (actual + [a.name])[|actual|] == f.path[|actual|] == (actual + [b.name])[|actual|];
  }

  lemma {:induction false} OnceOne(spec: Spec, asIf: Option<Mapping>, device: nat, path: Path, entry: Entry, f: Found)
    requires entry.Here? && Sane(entry.node) && MapsAll(asIf, path)
    ensures One(spec, asIf, device, path, entry).items[f] <= 1
    decreases entry, 0
  {
    if f in One(spec, asIf, device, path, entry).items {
      AtItsName(spec, asIf, device, path, entry, f);
      RealPathJoins(asIf, path, [entry.name]);
      if entry.node.Dir? {
        OnceBelow(spec, asIf, device, path + [entry.name], entry.node, f);
        var below := Below(spec, asIf, device, path + [entry.name], entry.node).items;
        if f in below {
          var rel, target := BelowIsReached(spec, asIf, device, path + [entry.name], entry.node, f);
          RealPathJoins(asIf, path + [entry.name], rel);
          assert |f.path| > |RealPath(path, asIf)| + 1;
        }
      }
    }
  }

  // ---- Nothing twice in all ----

  /** The second source is the first, or is reached in walking it. */
  ghost predicate Inside(root: Node, spec: Spec, asIf: Option<Mapping>, outer: Path, inner: Path) {
    && Lookup(root, outer).Some? && Lookup(root, inner).Some? && outer <= inner
    && (outer == inner ||
        Reached(spec, asIf, Lookup(root, outer).value.device, outer, Lookup(root, outer).value, inner[|outer|..],
                Lookup(root, inner).value))
  }

  lemma SourceItems(root: Node, spec: Spec, asIf: Option<Mapping>, source: Path, f: Found)
    ensures f in Source(root, spec, asIf, source).items <==>
            && Lookup(root, source).Some?
            && var node := Lookup(root, source).value;
               (f in OwnSource(spec, RealPath(source, asIf), node) ||
                f in Below(spec, asIf, node.device, source, node).items)
  {
    hide Among, RealPath, Never, Lookup;
  }

  lemma OnceSource(root: Node, spec: Spec, asIf: Option<Mapping>, source: Path, f: Found)
    requires Sane(root) && MapsAll(asIf, source)
    ensures Source(root, spec, asIf, source).items[f] <= 1
  {
    if Lookup(root, source).Some? {
      var node := Lookup(root, source).value;
      SaneAt(root, source);
      OnceBelow(spec, asIf, node.device, source, node, f);
      if f in Below(spec, asIf, node.device, source, node).items {
        var rel, target := BelowIsReached(spec, asIf, node.device, source, node, f);
        RealPathJoins(asIf, source, rel);
        assert |f.path| > |RealPath(source, asIf)|;
      }
      hide Among, Never, RealPath;
    }
  }

  /** Where something found in walking a source is, from the source. */
  lemma SourceReaches(root: Node, spec: Spec, asIf: Option<Mapping>, source: Path, f: Found) returns (rel: Path)
    requires Sane(root) && MapsAll(asIf, source) && f in Source(root, spec, asIf, source).items
    ensures Lookup(root, source).Some? && f.path == RealPath(source, asIf) + rel
    ensures var node := Lookup(root, source).value;
            rel != [] ==> Lookup(node, rel).Some? &&
                          Reached(spec, asIf, node.device, source, node, rel, Lookup(node, rel).value)
  {
    SourceItems(root, spec, asIf, source, f);
    var node := Lookup(root, source).value;
    rel := [];
    if f in Below(spec, asIf, node.device, source, node).items {
      SaneAt(root, source);
      var target;
      rel, target := BelowIsReached(spec, asIf, node.device, source, node, f);
      RealPathJoins(asIf, source, rel);
    } else {
      assert RealPath(source, asIf) + [] == RealPath(source, asIf);
    }
  }

  /** A folder on the way is reached too. */
  lemma ReachedOnTheWay(spec: Spec, asIf: Option<Mapping>, device: nat, path: Path, node: Node, rel: Path, target: Node,
                        k: nat)
    requires Reached(spec, asIf, device, path, node, rel, target) && 0 < k <= |rel|
    ensures Lookup(node, rel[..k]).Some?
    ensures Reached(spec, asIf, device, path, node, rel[..k], Lookup(node, rel[..k]).value)
  {
    assert ScopeAt(spec, asIf, device, path, node, rel[..k]);
    forall j | 0 <= j < k
      ensures ReadDir(node, rel[..k][..j]).Some?
    {
      assert rel[..k][..j] == rel[..j];
    }
    forall j | 0 < j <= k
      ensures ScopeAt(spec, asIf, device, path, node, rel[..k][..j])
    {
      assert rel[..k][..j] == rel[..j];
    }
  }

  /** What is reached from what is reached is reached. */
  lemma ReachedFurther(spec: Spec, asIf: Option<Mapping>, device: nat, path: Path, node: Node, way: Path, mid: Node,
                       rel: Path, target: Node)
    requires Reached(spec, asIf, device, path, node, way, mid)
    requires Reached(spec, asIf, mid.device, path + way, mid, rel, target)
    ensures Reached(spec, asIf, device, path, node, way + rel, target)
  {
    hide ScopeAt;
    LookupJoins(node, way, rel);
    ReadFurther(node, way, mid, rel);
    hide ReadDir;
    InScopeFurther(spec, asIf, device, path, node, way, mid, rel);
  }

  lemma ReadFurther(node: Node, way: Path, mid: Node, rel: Path)
    requires Lookup(node, way) == Some(mid) && forall k :: 0 <= k < |way| ==> ReadDir(node, way[..k]).Some?
    requires forall k :: 0 <= k < |rel| ==> ReadDir(mid, rel[..k]).Some?
    ensures forall k :: 0 <= k < |way + rel| ==> ReadDir(node, (way + rel)[..k]).Some?
  {
    var all := way + rel;
    forall k | 0 <= k < |all|
      ensures ReadDir(node, all[..k]).Some?
    {
      if k < |way| {
        assert all[..k] == way[..k];
      } else {
        assert all[..k] == way + rel[..k - |way|];
        LookupJoins(node, way, rel[..k - |way|]);
        assert ReadDir(mid, rel[..k - |way|]).Some?;
      }
    }
  }

  lemma InScopeFurther(spec: Spec, asIf: Option<Mapping>, device: nat, path: Path, node: Node, way: Path, mid: Node,
                       rel: Path)
    requires way != [] && Lookup(node, way) == Some(mid)
    requires forall k :: 0 < k <= |way| ==> ScopeAt(spec, asIf, device, path, node, way[..k])
    requires forall k :: 0 < k <= |rel| ==> ScopeAt(spec, asIf, mid.device, path + way, mid, rel[..k])
    ensures forall k :: 0 < k <= |way + rel| ==> ScopeAt(spec, asIf, device, path, node, (way + rel)[..k])
  {
    hide RealPath;
    var all := way + rel;
    assert way[..|way|] == way;
    assert ScopeAt(spec, asIf, device, path, node, way[..|way|]);
    forall k | 0 < k <= |all|
      ensures ScopeAt(spec, asIf, device, path, node, all[..k])
    {
      if k <= |way| {
        assert all[..k] == way[..k];
      } else {
        assert all[..k] == way + rel[..k - |way|];
        LookupJoins(node, way, rel[..k - |way|]);
        assert ScopeAt(spec, asIf, mid.device, path + way, mid, rel[..k - |way|]);
        assert path + way + rel[..k - |way|] == path + (way + rel[..k - |way|]);
      }
    }
  }

  lemma OwnIsBelow(spec: Spec, asIf: Option<Mapping>, device: nat, path: Path, node: Node, way: Path, mid: Node,
                   f: Found)
    requires Reached(spec, asIf, device, path, node, way, mid)
    requires f in OwnSource(spec, RealPath(path + way, asIf), mid)
    ensures f in Below(spec, asIf, device, path, node).items
  {
    hide Reached, Below, RealPath, Never;
    assert Emits(spec, asIf, path, way, mid, f);
    ReachedIsBelow(spec, asIf, device, path, node, way, mid, f);
  }

  lemma BelowFurther(spec: Spec, asIf: Option<Mapping>, device: nat, path: Path, node: Node, way: Path, mid: Node,
                     f: Found)
    requires Sane(mid) && Reached(spec, asIf, device, path, node, way, mid)
    requires f in Below(spec, asIf, mid.device, path + way, mid).items
    ensures f in Below(spec, asIf, device, path, node).items
  {
    hide Sane, Reached, Below, RealPath;
    var rel, target := BelowIsReached(spec, asIf, mid.device, path + way, mid, f);
    ReachedFurther(spec, asIf, device, path, node, way, mid, rel, target);
    assert path + (way + rel) == path + way + rel;
    assert Emits(spec, asIf, path, way + rel, target, f);
    ReachedIsBelow(spec, asIf, device, path, node, way + rel, target, f);
  }

  /** Everything a source inside another comes to, the other comes to as well. */
  lemma InsideIsFoundToo(root: Node, spec: Spec, asIf: Option<Mapping>, outer: Path, inner: Path, f: Found)
    requires Sane(root) && Inside(root, spec, asIf, outer, inner)
    requires f in Source(root, spec, asIf, inner).items
    ensures f in Source(root, spec, asIf, outer).items
  {
    hide Source, Sane, Reached, RealPath, Below, OwnSource, Lookup;
    if outer != inner {
      var way := inner[|outer|..];
      assert outer + way == inner;
      var node, mid := Lookup(root, outer).value, Lookup(root, inner).value;
      SourceItems(root, spec, asIf, inner, f);
      SourceItems(root, spec, asIf, outer, f);
      if f in OwnSource(spec, RealPath(inner, asIf), mid) {
        OwnIsBelow(spec, asIf, node.device, outer, node, way, mid, f);
      } else {
        SaneAt(root, inner);
        BelowFurther(spec, asIf, node.device, outer, node, way, mid, f);
      }
    }
  }

  /** Of two sources that come to the same thing one is inside the other. */
  lemma SharedIsInside(root: Node, spec: Spec, asIf: Option<Mapping>, a: Path, b: Path, f: Found)
    requires Sane(root) && MapsAll(asIf, a) && MapsAll(asIf, b)
    requires f in Source(root, spec, asIf, a).items && f in Source(root, spec, asIf, b).items
    ensures Inside(root, spec, asIf, a, b) || Inside(root, spec, asIf, b, a)
  {
    var x := SourceReaches(root, spec, asIf, a, f);
    var y := SourceReaches(root, spec, asIf, b, f);
    if |a| <= |b| {
      SharedReaches(root, spec, asIf, a, x, b, y);
    } else {
      SharedReaches(root, spec, asIf, b, y, a, x);
    }
  }

  lemma SharedReaches(root: Node, spec: Spec, asIf: Option<Mapping>, a: Path, x: Path, b: Path, y: Path)
    requires MapsAll(asIf, a) && MapsAll(asIf, b) && Lookup(root, a).Some? && Lookup(root, b).Some? && |a| <= |b|
    requires RealPath(a, asIf) + x == RealPath(b, asIf) + y
    requires var node := Lookup(root, a).value;
             x != [] ==> Lookup(node, x).Some? && Reached(spec, asIf, node.device, a, node, x, Lookup(node, x).value)
    ensures Inside(root, spec, asIf, a, b)
  {
    SamePlace(asIf, a, x, b, y);
    var k := |b| - |a|;
    assert b == a + x[..k];
    if k > 0 {
      var node := Lookup(root, a).value;
      ReachedOnTheWay(spec, asIf, node.device, a, node, x, Lookup(node, x).value, k);
      LookupJoins(root, a, x[..k]);
      assert b[|a|..] == x[..k];
    } else {
      assert a == b;
    }
  }

  lemma SamePlace(asIf: Option<Mapping>, a: Path, x: Path, b: Path, y: Path)
    requires MapsAll(asIf, a) && MapsAll(asIf, b) && |a| <= |b| && RealPath(a, asIf) + x == RealPath(b, asIf) + y
    ensures a + x == b + y && |b| - |a| <= |x| && b == a + x[..|b| - |a|]
  {
    if asIf.Some? {
      var from, to := asIf.value.from, asIf.value.to;
      SameTail(from, to, a[|from|..], x, b[|from|..], y);
      assert a == from + a[|from|..] && b == from + b[|from|..];
    }
    assert b == (b + y)[..|b|] && (a + x)[..|b|] == a + x[..|b| - |a|];
  }

  lemma SameTail(from: Path, to: Path, p: Path, x: Path, q: Path, y: Path)
    requires to + p + x == to + q + y
    ensures from + p + x == from + q + y
  {
    assert p + x == (to + p + x)[|to|..] && q + y == (to + q + y)[|to|..];
    assert from + p + x == from + (p + x) && from + q + y == from + (q + y);
  }

  lemma {:induction false} HowOften(root: Node, spec: Spec, asIf: Option<Mapping>, n: nat, f: Found)
    requires n <= |spec.sources|
    requires forall i :: 0 <= i < n ==> Source(root, spec, asIf, spec.sources[i]).items[f] <= 1
    ensures Sources(root, spec, asIf, n).items[f] <= 1 <==>
            forall i, j :: 0 <= i < j < n ==>
              !(f in Source(root, spec, asIf, spec.sources[i]).items &&
                f in Source(root, spec, asIf, spec.sources[j]).items)
    ensures f in Sources(root, spec, asIf, n).items <==>
            exists i :: 0 <= i < n && f in Source(root, spec, asIf, spec.sources[i]).items
  {
    hide Source;
    if n > 0 {
      HowOften(root, spec, asIf, n - 1, f);
    }
  }

  /** What the sources come to, one by one. */
  function Bags(root: Node, spec: Spec, asIf: Option<Mapping>): (bags: seq<multiset<Found>>)
    ensures |bags| == |spec.sources|
  {
    seq(|spec.sources|, i requires 0 <= i < |spec.sources| => Source(root, spec, asIf, spec.sources[i]).items)
  }

  ghost predicate Nested(root: Node, spec: Spec, asIf: Option<Mapping>, i: int, j: int) {
    0 <= i < |spec.sources| && 0 <= j < |spec.sources| && Inside(root, spec, asIf, spec.sources[i], spec.sources[j])
  }

  /** The whole walk finds nothing twice if and only if no source that comes to
      anything is inside another. */
  lemma OnceInAllIff(root: Node, spec: Spec, asIf: Option<Mapping>, all: multiset<Found>)
    requires Sane(root) && forall source :: source in spec.sources ==> MapsAll(asIf, source)
    requires all == Sources(root, spec, asIf, |spec.sources|).items
    ensures (forall f :: all[f] <= 1) <==>
            forall i, j :: i != j && Nested(root, spec, asIf, i, j) ==>
              Source(root, spec, asIf, spec.sources[j]).items == multiset{}
  {
    var bags := Bags(root, spec, asIf);
    forall f
      ensures OnceOf(bags, all, f)
    {
      BagsOnce(root, spec, asIf, f);
    }
    forall i, j, f
      ensures PairOf(root, spec, asIf, bags, i, j, f)
    {
      BagsNest(root, spec, asIf, i, j, f);
      BagsShare(root, spec, asIf, i, j, f);
    }
    hide Source, Sources, MapsAll, Sane, Inside, OnceOf, PairOf;
    OnceByPairs(root, spec, asIf, bags, all);
    assert forall j :: 0 <= j < |bags| ==> bags[j] == Source(root, spec, asIf, spec.sources[j]).items;
  }

  ghost predicate NoneWithin(root: Node, spec: Spec, asIf: Option<Mapping>, bags: seq<multiset<Found>>) {
    forall i, j :: 0 <= i < |bags| && 0 <= j < |bags| && i != j && Nested(root, spec, asIf, i, j) ==>
      bags[j] == multiset{}
  }

  /** It is in `all` once at most when no two of the bags have it. */
  ghost predicate OnceOf(bags: seq<multiset<Found>>, all: multiset<Found>, f: Found) {
    all[f] <= 1 <==> forall i, j :: 0 <= i < j < |bags| ==> !(f in bags[i] && f in bags[j])
  }

  /** A bag has all that one within it has, and of two that share one is within
      the other. */
  ghost predicate PairOf(root: Node, spec: Spec, asIf: Option<Mapping>, bags: seq<multiset<Found>>, i: int, j: int,
                         f: Found) {
    0 <= i < |bags| && 0 <= j < |bags| && i != j ==>
      && (Nested(root, spec, asIf, i, j) && f in bags[j] ==> f in bags[i])
      && (f in bags[i] && f in bags[j] ==> Nested(root, spec, asIf, i, j) || Nested(root, spec, asIf, j, i))
  }

  lemma BagsOnce(root: Node, spec: Spec, asIf: Option<Mapping>, f: Found)
    requires Sane(root) && forall source :: source in spec.sources ==> MapsAll(asIf, source)
    ensures OnceOf(Bags(root, spec, asIf), Sources(root, spec, asIf, |spec.sources|).items, f)
  {
    hide Source, Sources, MapsAll, Sane;
    forall i | 0 <= i < |spec.sources|
      ensures Source(root, spec, asIf, spec.sources[i]).items[f] <= 1
    {
      OnceSource(root, spec, asIf, spec.sources[i], f);
    }
    HowOften(root, spec, asIf, |spec.sources|, f);
    var bags := Bags(root, spec, asIf);
    forall i, j | 0 <= i < j < |bags|
      ensures f in bags[i] && f in bags[j] <==>
              f in Source(root, spec, asIf, spec.sources[i]).items &&
              f in Source(root, spec, asIf, spec.sources[j]).items
    {
    }
  }

  lemma BagsNest(root: Node, spec: Spec, asIf: Option<Mapping>, i: int, j: int, f: Found)
    requires Sane(root) && forall source :: source in spec.sources ==> MapsAll(asIf, source)
    ensures var bags := Bags(root, spec, asIf);
            Nested(root, spec, asIf, i, j) && f in bags[j] ==> f in bags[i]
  {
    hide Source, Inside, MapsAll, Sane;
    if Nested(root, spec, asIf, i, j) && f in Bags(root, spec, asIf)[j] {
      InsideIsFoundToo(root, spec, asIf, spec.sources[i], spec.sources[j], f);
    }
  }

  lemma BagsShare(root: Node, spec: Spec, asIf: Option<Mapping>, i: int, j: int, f: Found)
    requires Sane(root) && forall source :: source in spec.sources ==> MapsAll(asIf, source)
    ensures var bags := Bags(root, spec, asIf);
            0 <= i < |bags| && 0 <= j < |bags| && f in bags[i] && f in bags[j] ==>
              Nested(root, spec, asIf, i, j) || Nested(root, spec, asIf, j, i)
  {
    hide Source, Inside, MapsAll, Sane;
    var bags := Bags(root, spec, asIf);
    if 0 <= i < |bags| && 0 <= j < |bags| && f in bags[i] && f in bags[j] {
      SharedIsInside(root, spec, asIf, spec.sources[i], spec.sources[j], f);
    }
  }

  lemma {:induction false} OnceByPairs(root: Node, spec: Spec, asIf: Option<Mapping>, bags: seq<multiset<Found>>,
                                       all: multiset<Found>)
    requires forall f :: OnceOf(bags, all, f)
    requires forall i, j, f :: PairOf(root, spec, asIf, bags, i, j, f)
    ensures (forall f :: all[f] <= 1) <==> NoneWithin(root, spec, asIf, bags)
  {
    hide Nested;
    if forall f :: all[f] <= 1 {
      forall i, j | 0 <= i < |bags| && 0 <= j < |bags| && i != j && Nested(root, spec, asIf, i, j)
        ensures bags[j] == multiset{}
      {
        forall f
          ensures f !in bags[j]
        {
          assert OnceOf(bags, all, f) && PairOf(root, spec, asIf, bags, i, j, f);
        }
      }
    }
    if NoneWithin(root, spec, asIf, bags) {
      forall f
        ensures all[f] <= 1
      {
        assert OnceOf(bags, all, f);
        forall i, j | 0 <= i < j < |bags|
          ensures !(f in bags[i] && f in bags[j])
        {
          assert PairOf(root, spec, asIf, bags, i, j, f);
        }
      }
    }
  }

  /** A folder and one inside it, both sources: the file they share comes twice. */
  lemma NestedFindsTwice(spec: Spec, size: nat)
    requires spec.sources == [["a"], ["a", "b"]] && TakesAll(spec)
    ensures var root :=
              Dir(0, true, [Here("a", Dir(0, true, [Here("b", Dir(0, true, [Here("c", Leaf(File, 0, size))]))]))]);
            Sane(root) && Sources(root, spec, None, 2).items[FoundLeaf(["a", "b", "c"], File, size)] == 2
  {
    hide Below, Sane, Lookup, TakesAll;
    var file := Leaf(File, 0, size);
    var b := Dir(0, true, [Here("c", file)]);
    var a := Dir(0, true, [Here("b", b)]);
    var root := Dir(0, true, [Here("a", a)]);
    var found := FoundLeaf(["a", "b", "c"], File, size);
    SaneAlone("c", file);
    SaneAlone("b", b);
    SaneAlone("a", a);
    LookupAlone("a", a, []);
    LookupAlone("b", b, []);
    LookupAlone("a", a, ["b"]);
    assert ["a"] + ["b"] == ["a", "b"] && ["a", "b"] + ["c"] == ["a", "b", "c"] && ["a"] + [] == ["a"] &&
           ["b"] + [] == ["b"];
    BelowAlone(spec, ["a", "b"], "c", file);
    BelowAlone(spec, ["a"], "b", b);
    SourceAlone(root, spec, ["a"], a, found);
    SourceAlone(root, spec, ["a", "b"], b, found);
    assert Sources(root, spec, None, 1).items == multiset{found};
  }

  /** Rules that leave nothing out. */
  ghost predicate TakesAll(spec: Spec) {
    spec.never == [] && !spec.includeDirs && forall path :: !spec.excludes(path)
  }

  lemma SaneAlone(name: string, node: Node)
    requires node.Dir? ==> Sane(node)
    ensures Sane(Dir(0, true, [Here(name, node)]))
  {
  }

  lemma LookupAlone(name: string, node: Node, rest: Path)
    ensures Lookup(Dir(0, true, [Here(name, node)]), [name] + rest) == Lookup(node, rest)
    ensures Lookup(node, []) == Some(node)
  {
    assert ([name] + rest)[1..] == rest;
  }

  lemma BelowAlone(spec: Spec, path: Path, name: string, node: Node)
    requires TakesAll(spec) && node.device == 0
    ensures Below(spec, None, 0, path, Dir(0, true, [Here(name, node)])).items ==
            if node.Dir? then Below(spec, None, 0, path + [name], node).items
            else multiset{FoundAt(path + [name], node)}
  {
    var entry := Here(name, node);
    AmongAlone(spec, path, entry);
    InScopeAlone(spec, path + [name], node);
    hide Among, InScope, Never;
    assert One(spec, None, 0, path, entry).items ==
           if node.Dir? then Below(spec, None, 0, path + [name], node).items
           else multiset{FoundAt(path + [name], node)};
  }

  lemma AmongAlone(spec: Spec, path: Path, entry: Entry)
    ensures Among(spec, None, 0, path, [entry]).items == One(spec, None, 0, path, entry).items
  {
    hide One;
    assert [entry][1..] == [] && Among(spec, None, 0, path, []) == NOTHING;
  }

  lemma InScopeAlone(spec: Spec, path: Path, node: Node)
    requires TakesAll(spec) && node.device == 0
    ensures InScope(spec, None, 0, path, node) && RealPath(path, None) == path
  {
  }

  lemma SourceAlone(root: Node, spec: Spec, source: Path, node: Node, found: Found)
    requires Lookup(root, source) == Some(node) && node.device == 0 && TakesAll(spec)
    requires Below(spec, None, 0, source, node).items == multiset{found}
    ensures Source(root, spec, None, source).items == multiset{found}
  {
    hide Below, Lookup;
  }

  // ---- Walking one place as another ----

  /** The tree at `from` is the tree at `to`. */
  ghost predicate SameTree(root: Node, from: Path, other: Node, to: Path) {
    forall rel: Path :: Lookup(root, from + rel) == Lookup(other, to + rel)
  }

  lemma {:induction false} BelowMoves(spec: Spec, m: Mapping, device: nat, rel: Path, node: Node)
    ensures Below(spec, Some(m), device, m.from + rel, node) == Below(spec, None, device, m.to + rel, node)
    decreases node, 1
  {
    if node.Dir? {
      AmongMoves(spec, m, device, rel, node.entries);
    }
  }

  lemma {:induction false} AmongMoves(spec: Spec, m: Mapping, device: nat, rel: Path, entries: seq<Entry>)
    ensures Among(spec, Some(m), device, m.from + rel, entries) == Among(spec, None, device, m.to + rel, entries)
    decreases entries, 0
  {
    hide One;
    if entries != [] {
      AmongMoves(spec, m, device, rel, entries[1..]);
      OneMoves(spec, m, device, rel, entries[0]);
    }
  }

  lemma {:induction false} OneMoves(spec: Spec, m: Mapping, device: nat, rel: Path, entry: Entry)
    ensures One(spec, Some(m), device, m.from + rel, entry) == One(spec, None, device, m.to + rel, entry)
    decreases entry, 0
  {
    hide Never;
    hide Own;
    hide Below;
    if !entry.Broken? {
      assert m.from + rel + [entry.name] == m.from + (rel + [entry.name]);
      assert m.to + rel + [entry.name] == m.to + (rel + [entry.name]);
      Moves(m, rel + [entry.name]);
      hide RealPath;
      if entry.Here? && entry.node.Dir? {
        BelowMoves(spec, m, device, rel + [entry.name], entry.node);
      }
    }
  }

  lemma Moves(m: Mapping, rel: Path)
    ensures RealPath(m.from + rel, Some(m)) == m.to + rel == RealPath(m.to + rel, None)
  {
    assert (m.from + rel)[|m.from|..] == rel;
  }

  function Placed(spec: Spec, to: Path, rels: seq<Path>): Spec {
    spec.(sources := seq(|rels|, i requires 0 <= i < |rels| => to + rels[i]))
  }

  lemma PlacedAt(spec: Spec, to: Path, rels: seq<Path>, i: nat)
    requires i < |rels|
    ensures |Placed(spec, to, rels).sources| == |rels| && Placed(spec, to, rels).sources[i] == to + rels[i]
    ensures Placed(spec, to, rels) == spec.(sources := Placed(spec, to, rels).sources)
  {
  }

  lemma SourceMoves(root: Node, other: Node, spec: Spec, m: Mapping, placed: Spec, rel: Path)
    requires SameTree(root, m.from, other, m.to) && placed == spec.(sources := placed.sources)
    ensures Source(root, spec, Some(m), m.from + rel) == Source(other, placed, None, m.to + rel)
  {
    hide Below;
    assert Lookup(root, m.from + rel) == Lookup(other, m.to + rel);
    Moves(m, rel);
    hide Lookup;
    hide RealPath;
    if Lookup(root, m.from + rel).Some? {
      var node := Lookup(root, m.from + rel).value;
      BelowMoves(spec, m, node.device, rel, node);
      RulesAlone(spec, placed, node.device, m.to + rel, node);
    }
  }

  /** Walking the tree at `from` as though it lay at `to` finds what walking it
      where it does lie at `to` would. */
  lemma {:induction false} WalkedAsItLies(root: Node, other: Node, spec: Spec, m: Mapping, rels: seq<Path>, n: nat)
    requires SameTree(root, m.from, other, m.to)
    requires n <= |rels| == |spec.sources| && forall i :: 0 <= i < |rels| ==> spec.sources[i] == m.from + rels[i]
    ensures Sources(root, spec, Some(m), n) == Sources(other, Placed(spec, m.to, rels), None, n)
    decreases n
  {
    var placed := Placed(spec, m.to, rels);
    hide Source, SameTree, Placed;
    if n > 0 {
      WalkedAsItLies(root, other, spec, m, rels, n - 1);
      PlacedAt(spec, m.to, rels, n - 1);
      SourceMoves(root, other, spec, m, placed, rels[n - 1]);
      NextSource(root, spec, Some(m), n - 1);
      NextSource(other, placed, None, n - 1);
    }
  }

  /** What is below a folder depends on the rules, not on the list of sources. */
  lemma {:induction false} RulesAlone(spec: Spec, other: Spec, device: nat, path: Path, node: Node)
    requires other == spec.(sources := other.sources)
    ensures Below(spec, None, device, path, node) == Below(other, None, device, path, node)
    decreases node, 1
  {
    if node.Dir? {
      RulesAloneAmong(spec, other, device, path, node.entries);
    }
  }

  lemma {:induction false} RulesAloneAmong(spec: Spec, other: Spec, device: nat, path: Path, entries: seq<Entry>)
    requires other == spec.(sources := other.sources)
    ensures Among(spec, None, device, path, entries) == Among(other, None, device, path, entries)
    decreases entries, 0
  {
    if entries != [] {
      RulesAloneAmong(spec, other, device, path, entries[1..]);
      if entries[0].Here? && entries[0].node.Dir? {
        RulesAlone(spec, other, device, path + [entries[0].name], entries[0].node);
      }
      RulesAloneOne(spec, other, device, path, entries[0]);
      hide One;
    }
  }

  lemma RulesAloneOne(spec: Spec, other: Spec, device: nat, path: Path, entry: Entry)
    requires other == spec.(sources := other.sources)
    requires entry.Here? && entry.node.Dir? ==>
               Below(spec, None, device, path + [entry.name], entry.node) ==
               Below(other, None, device, path + [entry.name], entry.node)
    ensures One(spec, None, device, path, entry) == One(other, None, device, path, entry)
  {
    hide Below, RealPath;
  }
}
