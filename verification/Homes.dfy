/** Which folder of a backup was the home folder, and what is backed up once it
    has come back (crates/backtrack-core/src/recovery.rs). Paths are lists of
    names. */
module Homes {
  import opened Text

  type Names = seq<string>

  /** The roots with something left of them once slashes at the ends are gone. */
  function Kept(roots: seq<Names>): (kept: seq<Names>)
    ensures forall r :: r in kept <==> r in roots && r != []
  {
    if roots == [] then []
    else (if roots[0] == [] then [] else [roots[0]]) + Kept(roots[1..])
  }

  // ---- The deepest folder that holds them all ----

  ghost predicate HoldsAll(folder: Names, roots: seq<Names>) {
    forall r :: r in roots ==> folder <= r
  }

  ghost predicate DeepestHolding(folder: Names, roots: seq<Names>) {
    HoldsAll(folder, roots) && forall other: Names :: HoldsAll(other, roots) ==> other <= folder
  }

  method CommonFolder(roots: seq<Names>) returns (shared: Names)
    requires roots != []
    ensures DeepestHolding(shared, roots)
  {
    shared := roots[0];
    var i := 1;
    assert roots[..1] == [roots[0]] && roots[0] in roots[..1];
    while i < |roots|
      invariant 1 <= i <= |roots| && DeepestHolding(shared, roots[..i])
    {
      var same := 0;
      while same < |shared| && same < |roots[i]| && shared[same] == roots[i][same]
        invariant 0 <= same <= |shared| && same <= |roots[i]| && shared[..same] == roots[i][..same]
      {
        assert shared[..same + 1] == shared[..same] + [shared[same]];
        assert roots[i][..same + 1] == roots[i][..same] + [roots[i][same]];
        same := same + 1;
      }
      HoldsOneMore(roots, i, shared, same);
      shared := shared[..same];
      i := i + 1;
    }
    assert roots[..|roots|] == roots;
  }

  lemma HoldsOneMore(roots: seq<Names>, i: nat, shared: Names, same: nat)
    requires 0 < i < |roots| && DeepestHolding(shared, roots[..i])
    requires same <= |shared| && same <= |roots[i]| && shared[..same] == roots[i][..same]
    requires same < |shared| && same < |roots[i]| ==> shared[same] != roots[i][same]
    ensures DeepestHolding(shared[..same], roots[..i + 1])
  {
    var next, before, after := roots[i], roots[..i], roots[..i + 1];
    assert after == before + [next];
    forall r | r in after
      ensures shared[..same] <= r
    {
      if r in before {
        assert shared <= r;
      }
    }
    forall other: Names | HoldsAll(other, after)
      ensures other <= shared[..same]
    {
      assert next in after;
      assert forall r :: r in before ==> r in after;
      assert HoldsAll(other, before);
      assert forall k :: 0 <= k < |other| ==> other[k] == shared[k] && other[k] == next[k];
    }
  }

  // ---- Guessing ----

  /** The deepest folder of `root` named after `user`. */
  function NamedHome(root: Names, user: string): Option<Names> {
    if user == "" || root == [] then None
    else if root[|root| - 1] == user then Some(root)
    else NamedHome(root[..|root| - 1], user)
  }

  function HomeShaped(root: Names): Option<Names> {
    if |root| >= 2 && root[0] == "home" then Some(root[..2])
    else if |root| >= 3 && root[0] == "var" && root[1] == "home" then Some(root[..3])
    else None
  }

  function Guess(root: Names, user: string): Option<Names> {
    var named := NamedHome(root, user);
    if named.Some? then named else HomeShaped(root)
  }

  /** The home folder a root points to: the part of it up to the last name that is
      the user's; or, of one that does not name the user, its first names, if it is
      a folder of `home` or of `var/home`, or inside one. */
  ghost predicate Points(root: Names, user: string, home: Names) {
    if user != "" && user in root then
      exists k :: 0 <= k < |root| && root[k] == user && user !in root[k + 1..] && home == root[..k + 1]
    else
      || (exists name, more :: root == ["home", name] + more && home == ["home", name])
      || (exists name, more :: root == ["var", "home", name] + more && home == ["var", "home", name])
  }

  ghost predicate PointsOnly(root: Names, user: string, home: Names) {
    forall other :: Points(root, user, other) <==> other == home
  }

  lemma {:induction false} NamedIsLast(root: Names, user: string)
    ensures NamedHome(root, user).Some? <==> user != "" && user in root
    ensures NamedHome(root, user).Some? ==>
              var k := |NamedHome(root, user).value| - 1;
              && 0 <= k < |root| && root[k] == user && user !in root[k + 1..]
              && NamedHome(root, user).value == root[..k + 1]
    decreases |root|
  {
    if user != "" && root != [] {
      var n := |root| - 1;
      assert root == root[..n] + [root[n]];
      if root[n] == user {
        assert root[..n + 1] == root && root[n + 1..] == [];
      } else {
        NamedIsLast(root[..n], user);
        if NamedHome(root[..n], user).Some? {
          var k := |NamedHome(root[..n], user).value| - 1;
          assert root[k + 1..] == root[..n][k + 1..] + [root[n]] && root[..n][..k + 1] == root[..k + 1];
        }
      }
    }
  }

  lemma ShapedIs(root: Names, home: Names)
    ensures HomeShaped(root) == Some(home) <==>
            || (exists name, more :: root == ["home", name] + more && home == ["home", name])
            || (exists name, more :: root == ["var", "home", name] + more && home == ["var", "home", name])
  {
    assert "home"[0] != "var"[0];
    if |root| >= 2 && root[0] == "home" {
      assert root == ["home", root[1]] + root[2..] && root[..2] == ["home", root[1]];
    }
    if |root| >= 3 && root[0] == "var" && root[1] == "home" {
      assert root == ["var", "home", root[2]] + root[3..] && root[..3] == ["var", "home", root[2]];
    }
    if name, more :| root == ["home", name] + more && home == ["home", name] {
      assert root[..2] == home && root[0] == "home";
    }
    if name, more :| root == ["var", "home", name] + more && home == ["var", "home", name] {
      assert root[..3] == home && root[0] == "var" && root[1] == "home";
    }
  }

  lemma GuessIs(root: Names, user: string)
    ensures forall home :: Points(root, user, home) <==> Guess(root, user) == Some(home)
  {
    NamedIsLast(root, user);
    hide NamedHome, HomeShaped;
    forall home
      ensures Points(root, user, home) <==> Guess(root, user) == Some(home)
    {
      if user != "" && user in root {
        OneLast(root, user, home);
      } else {
        ShapedIs(root, home);
      }
    }
  }

  lemma NotFrom(names: Names, from: nat, name: string)
    requires from <= |names| && name !in names[from..]
    ensures forall i :: from <= i < |names| ==> names[i] != name
  {
    assert forall i :: from <= i < |names| ==> names[i] == names[from..][i - from];
  }

  lemma OneLast(root: Names, user: string, home: Names)
    requires user != "" && user in root
    requires NamedHome(root, user).Some?
    requires var k := |NamedHome(root, user).value| - 1;
             && 0 <= k < |root| && root[k] == user && user !in root[k + 1..]
             && NamedHome(root, user).value == root[..k + 1]
    ensures Points(root, user, home) <==> NamedHome(root, user) == Some(home)
  {
    hide NamedHome;
    var k := |NamedHome(root, user).value| - 1;
    forall j | 0 <= j < |root| && root[j] == user && user !in root[j + 1..]
      ensures j == k
    {
      NotFrom(root, j + 1, user);
      NotFrom(root, k + 1, user);
    }
  }

  /** How many of the roots make this guess. */
  ghost function Votes(roots: seq<Names>, user: string, guess: Names): nat {
    if roots == [] then 0
    else
      var n := |roots| - 1;
      Votes(roots[..n], user, guess) + if Points(roots[n], user, guess) then 1 else 0
  }

  datatype Vote = Vote(home: Names, count: nat)

  /** The tally: each guess once, in the order they were first made. */
  ghost predicate Tally(votes: seq<Vote>, roots: seq<Names>, user: string) {
    && (forall i, j :: 0 <= i < j < |votes| ==> votes[i].home != votes[j].home)
    && (forall i :: 0 <= i < |votes| ==> votes[i].count == Votes(roots, user, votes[i].home) > 0)
    && (forall guess: Names :: Votes(roots, user, guess) > 0 ==> exists i :: 0 <= i < |votes| && votes[i].home == guess)
  }

  lemma {:induction false} VotesMade(roots: seq<Names>, user: string, guess: Names)
    ensures Votes(roots, user, guess) > 0 <==> exists k :: 0 <= k < |roots| && Points(roots[k], user, guess)
    decreases |roots|
  {
    if roots != [] {
      var n := |roots| - 1;
      VotesMade(roots[..n], user, guess);
      if k :| 0 <= k < n && Points(roots[k], user, guess) {
        assert Points(roots[..n][k], user, guess);
      }
    }
  }

  lemma VotesNext(roots: seq<Names>, root: Names, user: string)
    ensures forall home: Names :: Votes(roots + [root], user, home) ==
              Votes(roots, user, home) + if Points(root, user, home) then 1 else 0
  {
    assert (roots + [root])[..|roots|] == roots;
  }

  /** The first root that makes a guess, if any does. */
  ghost function FirstFor(roots: seq<Names>, user: string, guess: Names): (k: nat)
    ensures k <= |roots| && (k < |roots| ==> Points(roots[k], user, guess))
    ensures forall i :: 0 <= i < k ==> !Points(roots[i], user, guess)
  {
    if roots == [] || Points(roots[0], user, guess) then 0 else FirstFor(roots[1..], user, guess) + 1
  }

  /** The guesses in the order they were first made. */
  ghost predicate AsGuessed(votes: seq<Vote>, roots: seq<Names>, user: string) {
    && (forall i :: 0 <= i < |votes| ==> FirstFor(roots, user, votes[i].home) < |roots|)
    && (forall i, j :: 0 <= i < j < |votes| ==>
          FirstFor(roots, user, votes[i].home) < FirstFor(roots, user, votes[j].home))
  }

  lemma FirstForStays(roots: seq<Names>, root: Names, user: string, guess: Names)
    requires FirstFor(roots, user, guess) < |roots|
    ensures FirstFor(roots + [root], user, guess) == FirstFor(roots, user, guess)
  {
    hide Points;
    var k, more := FirstFor(roots, user, guess), roots + [root];
    assert forall i :: 0 <= i < |roots| ==> more[i] == roots[i];
    assert Points(more[k], user, guess);
  }

  lemma StillAsGuessed(votes: seq<Vote>, after: seq<Vote>, roots: seq<Names>, root: Names, user: string)
    requires AsGuessed(votes, roots, user) && |after| == |votes|
    requires forall i :: 0 <= i < |votes| ==> after[i].home == votes[i].home
    ensures AsGuessed(after, roots + [root], user)
  {
    hide FirstFor;
    forall i | 0 <= i < |votes|
      ensures FirstFor(roots + [root], user, votes[i].home) == FirstFor(roots, user, votes[i].home)
    {
      FirstForStays(roots, root, user, votes[i].home);
    }
  }

  lemma GuessedLast(votes: seq<Vote>, roots: seq<Names>, root: Names, user: string, home: Names)
    requires Tally(votes, roots, user) && AsGuessed(votes, roots, user) && PointsOnly(root, user, home)
    requires forall k :: 0 <= k < |votes| ==> votes[k].home != home
    ensures AsGuessed(votes + [Vote(home, 1)], roots + [root], user)
  {
    hide Votes, Points, FirstFor;
    StillAsGuessed(votes, votes, roots, root, user);
    VotesMade(roots, user, home);
    var more := roots + [root];
    var k := FirstFor(more, user, home);
    assert forall i :: 0 <= i < |roots| ==> more[i] == roots[i];
    assert more[|roots|] == root;
    assert k == |roots|;
  }

  lemma NoVote(votes: seq<Vote>, roots: seq<Names>, root: Names, user: string)
    requires Tally(votes, roots, user) && forall home :: !Points(root, user, home)
    ensures Tally(votes, roots + [root], user)
  {
    VotesNext(roots, root, user);
  }

  lemma VoteAgain(votes: seq<Vote>, roots: seq<Names>, root: Names, user: string, i: nat)
    requires Tally(votes, roots, user) && i < |votes| && PointsOnly(root, user, votes[i].home)
    ensures Tally(votes[i := Vote(votes[i].home, votes[i].count + 1)], roots + [root], user)
  {
    VotesNext(roots, root, user);
    hide Votes, Points;
    var after, more := votes[i := Vote(votes[i].home, votes[i].count + 1)], roots + [root];
    forall home: Names | Votes(more, user, home) > 0
      ensures exists k :: 0 <= k < |after| && after[k].home == home
    {
      assert home != votes[i].home ==> Votes(roots, user, home) > 0;
      var k :| 0 <= k < |votes| && votes[k].home == home;
      assert after[k].home == home;
    }
  }

  lemma VoteFirst(votes: seq<Vote>, roots: seq<Names>, root: Names, user: string, home: Names)
    requires Tally(votes, roots, user) && PointsOnly(root, user, home)
    requires forall k :: 0 <= k < |votes| ==> votes[k].home != home
    ensures Tally(votes + [Vote(home, 1)], roots + [root], user)
  {
    VotesNext(roots, root, user);
    hide Votes, Points;
    var after, more := votes + [Vote(home, 1)], roots + [root];
    assert Votes(roots, user, home) == 0;
    forall other: Names | Votes(more, user, other) > 0
      ensures exists k :: 0 <= k < |after| && after[k].home == other
    {
      if other == home {
        assert after[|votes|].home == home;
      } else {
        assert Votes(roots, user, other) > 0;
        var k :| 0 <= k < |votes| && votes[k].home == other;
        assert after[k].home == other;
      }
    }
  }

  lemma NothingCounted(user: string)
    ensures Tally([], [], user) && AsGuessed([], [], user)
  {
  }

  method CountVotes(roots: seq<Names>, user: string) returns (votes: seq<Vote>)
    ensures Tally(votes, roots, user) && AsGuessed(votes, roots, user)
  {
    hide Tally, AsGuessed, Votes, FirstFor, Points, Guess;
    votes := [];
    NothingCounted(user);
    var n := 0;
    while n < |roots|
      invariant 0 <= n <= |roots| && Tally(votes, roots[..n], user) && AsGuessed(votes, roots[..n], user)
    {
      assert roots[..n + 1] == roots[..n] + [roots[n]];
      GuessIs(roots[n], user);
      match Guess(roots[n], user) {
        case None =>
          NoVote(votes, roots[..n], roots[n], user);
          StillAsGuessed(votes, votes, roots[..n], roots[n], user);
        case Some(guess) =>
          var i := 0;
          while i < |votes| && votes[i].home != guess
            invariant 0 <= i <= |votes| && forall j :: 0 <= j < i ==> votes[j].home != guess
          {
            i := i + 1;
          }
          if i < |votes| {
            VoteAgain(votes, roots[..n], roots[n], user, i);
            ghost var before := votes;
            votes := votes[i := Vote(guess, votes[i].count + 1)];
            StillAsGuessed(before, votes, roots[..n], roots[n], user);
          } else {
            VoteFirst(votes, roots[..n], roots[n], user, guess);
            GuessedLast(votes, roots[..n], roots[n], user, guess);
            votes := votes + [Vote(guess, 1)];
          }
      }
      n := n + 1;
    }
    assert roots[..|roots|] == roots;
  }

  /** A guess that no other beats. */
  ghost predicate MostAgreedOn(roots: seq<Names>, user: string, home: Names) {
    Votes(roots, user, home) > 0 && forall other: Names :: Votes(roots, user, other) <= Votes(roots, user, home)
  }

  /** Of the guesses as many roots agree on, the one made last for the first time. */
  ghost predicate LastOfThose(roots: seq<Names>, user: string, home: Names) {
    forall other: Names :: other != home && Votes(roots, user, other) == Votes(roots, user, home) ==>
      FirstFor(roots, user, other) < FirstFor(roots, user, home)
  }

  function Parent(names: Names): Names {
    if names == [] then [] else names[..|names| - 1]
  }

  predicate Related(a: Names, b: Names) {
    a <= b || b <= a
  }

  predicate Here(kept: seq<Names>, home: Names) {
    home != [] && exists r :: r in kept && Related(r, home)
  }

  ghost predicate AnyGuess(kept: seq<Names>, user: string) {
    exists r, home :: r in kept && Points(r, user, home)
  }

  /** The last of those with the most votes. */
  ghost predicate IsBest(votes: seq<Vote>, at: nat) {
    && at < |votes|
    && (forall i :: 0 <= i < |votes| ==> votes[i].count <= votes[at].count)
    && (forall i :: at < i < |votes| ==> votes[i].count < votes[at].count)
  }

  method MostVotes(votes: seq<Vote>) returns (best: nat)
    requires votes != []
    ensures IsBest(votes, best)
  {
    best := 0;
    var i := 1;
    while i < |votes|
      invariant best < i <= |votes|
      invariant forall j :: 0 <= j < i ==> votes[j].count <= votes[best].count
      invariant forall j :: best < j < i ==> votes[j].count < votes[best].count
    {
      if votes[i].count >= votes[best].count {
        best := i;
      }
      i := i + 1;
    }
  }

  lemma TallyGuesses(votes: seq<Vote>, kept: seq<Names>, user: string)
    requires Tally(votes, kept, user)
    ensures votes != [] <==> AnyGuess(kept, user)
  {
    if votes != [] {
      VotesMade(kept, user, votes[0].home);
    }
    if r, home :| r in kept && Points(r, user, home) {
      var k :| 0 <= k < |kept| && kept[k] == r;
      VotesMade(kept, user, home);
    }
  }

  lemma BestIsMost(votes: seq<Vote>, kept: seq<Names>, user: string, at: nat)
    requires Tally(votes, kept, user) && AsGuessed(votes, kept, user) && IsBest(votes, at)
    ensures MostAgreedOn(kept, user, votes[at].home) && LastOfThose(kept, user, votes[at].home)
  {
    hide Votes, FirstFor;
    forall other: Names | Votes(kept, user, other) > 0
      ensures Votes(kept, user, other) <= Votes(kept, user, votes[at].home)
      ensures other != votes[at].home && Votes(kept, user, other) == Votes(kept, user, votes[at].home) ==>
                FirstFor(kept, user, other) < FirstFor(kept, user, votes[at].home)
    {
      var i :| 0 <= i < |votes| && votes[i].home == other;
    }
  }

  lemma BestIsPointedTo(votes: seq<Vote>, kept: seq<Names>, user: string, at: nat)
    requires Tally(votes, kept, user) && at < |votes|
    ensures exists r :: r in kept && Points(r, user, votes[at].home)
  {
    VotesMade(kept, user, votes[at].home);
    hide Votes, Points;
    var k :| 0 <= k < |kept| && Points(kept[k], user, votes[at].home);
    assert kept[k] in kept;
  }

  /** This computer's own home folder, if a root is inside it or holds it; or the
      folder most of the roots' names point to, of equals the one that comes up
      last; or the folder above the one root
      there is; or the deepest folder that holds them all. */
  method SourceHome(roots: seq<Names>, home: Names, user: string) returns (found: Option<Names>)
    ensures found.None? <==> Kept(roots) == []
    ensures found.Some? ==>
              var kept := Kept(roots);
              && (Here(kept, home) ==> found.value == home)
              && (!Here(kept, home) && AnyGuess(kept, user) ==>
                    && MostAgreedOn(kept, user, found.value) && LastOfThose(kept, user, found.value)
                    && exists r :: r in kept && Points(r, user, found.value))
              && (!Here(kept, home) && !AnyGuess(kept, user) && |kept| == 1 ==> found.value == Parent(kept[0]))
              && (!Here(kept, home) && !AnyGuess(kept, user) && |kept| > 1 ==> DeepestHolding(found.value, kept))
  {
    hide Kept, Related, AnyGuess, MostAgreedOn, LastOfThose, DeepestHolding, Votes, Guess, FirstFor;
    var kept := Kept(roots);
    if kept == [] {
      return None;
    }
    if Here(kept, home) {
      return Some(home);
    }
    var votes := CountVotes(kept, user);
    TallyGuesses(votes, kept, user);
    if votes != [] {
      var best := MostVotes(votes);
      BestIsMost(votes, kept, user, best);
      BestIsPointedTo(votes, kept, user, best);
      return Some(votes[best].home);
    }
    if |kept| == 1 {
      return Some(Parent(kept[0]));
    }
    var shared := CommonFolder(kept);
    return Some(shared);
  }

  // ---- What to back up afterwards ----

  /** Each root inside the old home folder, at the same place in the new one. */
  function BackupsAfter(roots: seq<Names>, source: Names, home: Names): set<Names> {
    set r | r in roots && source <= r :: home + r[|source|..]
  }

  /** Whether something inside the old home folder that was backed up is backed
      up at its new place. */
  ghost predicate StillBackedUp(roots: seq<Names>, source: Names, home: Names, path: Names)
    requires source <= path
  {
    (exists r :: r in roots && r <= path) ==>
      exists p :: p in BackupsAfter(roots, source, home) && p <= home + path[|source|..]
  }

  /** Everything that was backed up inside the old home folder goes on being
      backed up if and only if no root held the home folder from above, or the
      home folder was a root too. */
  lemma BackupsCarryOnIff(roots: seq<Names>, source: Names, home: Names)
    ensures (forall path: Names :: source <= path ==> StillBackedUp(roots, source, home, path)) <==>
            ((exists r :: r in roots && r < source) ==> source in roots)
  {
    if (exists r :: r in roots && r < source) && source !in roots {
      AboveIsDropped(roots, source, home);
    } else {
      forall path: Names | source <= path
        ensures StillBackedUp(roots, source, home, path)
      {
        if r :| r in roots && r <= path {
          Comparable(r, source, path);
          RootCarriesOn(roots, source, home, if source <= r then r else source, path);
        }
      }
    }
  }

  lemma RootCarriesOn(roots: seq<Names>, source: Names, home: Names, root: Names, path: Names)
    requires root in roots && source <= root <= path
    ensures StillBackedUp(roots, source, home, path)
  {
    assert home + root[|source|..] in BackupsAfter(roots, source, home);
    assert path == root + path[|root|..];
    assert home + path[|source|..] == home + root[|source|..] + path[|root|..];
  }

  lemma Comparable(a: Names, b: Names, path: Names)
    requires a <= path && b <= path
    ensures b <= a || a < b
  {
    if |a| < |b| {
      assert a == path[..|a|] == b[..|a|];
    } else {
      assert b == path[..|b|] == a[..|b|];
    }
  }

  lemma AboveIsDropped(roots: seq<Names>, source: Names, home: Names)
    requires (exists r :: r in roots && r < source) && source !in roots
    ensures source <= source && !StillBackedUp(roots, source, home, source)
  {
    var r :| r in roots && r < source;
    assert r <= source;
    assert source[|source|..] == [] && home + [] == home;
    forall root | root in roots && source <= root
      ensures !(home + root[|source|..] <= home)
    {
      assert |root| == |source| ==> root == source;
    }
  }
}
