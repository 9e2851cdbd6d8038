/** What `**` is said to stand for, and what it does
    (crates/backtrack-core/src/pattern.rs): whole levels of a path, or any run of
    characters at all. */
module Levels {
  import opened Pattern
  import Exclusions

  /** A run of whole levels, each a name and its slash. */
  predicate WholeLevels(text: seq<char>, from: nat, to: nat)
    requires from <= to <= |text|
  {
    from == to || text[to - 1] == '/'
  }

  /** `tokens[p..]` matches `text[t..]` in shell style, with every `**` taking
      whole levels; but for one that comes last, which takes anything. */
  ghost predicate MatchesWhole(tokens: seq<Token>, p: nat, text: seq<char>, t: nat)
    requires p <= |tokens| && t <= |text|
    decreases |tokens| - p
  {
    if p == |tokens| then
      t == |text|
    else if tokens[p].Wild() then
      exists n :: t <= n <= |text| && RunWhole(tokens, p, text, t, n) && MatchesWhole(tokens, p + 1, text, n)
    else
      t < |text| && TakesOne(tokens[p], text[t], false) && MatchesWhole(tokens, p + 1, text, t + 1)
  }

  ghost predicate RunWhole(tokens: seq<Token>, p: nat, text: seq<char>, from: nat, to: nat)
    requires p < |tokens| && tokens[p].Wild() && from <= to <= |text|
  {
    Run(tokens[p], text, from, to, false) && (tokens[p].AnyDirs? && p + 1 < |tokens| ==> WholeLevels(text, from, to))
  }

  ghost predicate MeansWhole(tokens: seq<Token>, text: seq<char>) {
    MatchesWhole(tokens, 0, text, 0)
  }

  /** What whole levels match, any run does. */
  lemma {:induction false} WholeIsMeant(tokens: seq<Token>, p: nat, text: seq<char>, t: nat)
    requires p <= |tokens| && t <= |text| && MatchesWhole(tokens, p, text, t)
    ensures Matches(tokens, p, text, t, false)
    decreases |tokens| - p
  {
    if p < |tokens| {
      if tokens[p].Wild() {
        var n :| t <= n <= |text| && RunWhole(tokens, p, text, t, n) && MatchesWhole(tokens, p + 1, text, n);
        WholeIsMeant(tokens, p + 1, text, n);
      } else {
        WholeIsMeant(tokens, p + 1, text, t + 1);
      }
    }
  }

  // ---- Where a star or the end follows ----

  /** Wildcards go on from a `**` to a star, or to the end. */
  ghost predicate Loose(tokens: seq<Token>, i: nat)
    requires i < |tokens|
  {
    exists j :: i <= j < |tokens| && (tokens[j].Star? || j + 1 == |tokens|) && WildTo(tokens, i, j)
  }

  predicate WildTo(tokens: seq<Token>, i: nat, j: nat)
    requires j < |tokens|
  {
    forall k :: i <= k <= j ==> tokens[k].Wild()
  }

  lemma LooseNext(tokens: seq<Token>, i: nat)
    requires i + 1 < |tokens| && tokens[i].AnyDirs? && Loose(tokens, i)
    ensures tokens[i + 1].Wild() && (tokens[i + 1].AnyDirs? ==> Loose(tokens, i + 1))
  {
    var j :| i <= j < |tokens| && (tokens[j].Star? || j + 1 == |tokens|) && WildTo(tokens, i, j);
    assert WildTo(tokens, i + 1, j);
  }

  /** Where the level that `n` is in starts, or `t` if that is later. */
  lemma LevelStart(text: seq<char>, t: nat, n: nat) returns (q: nat)
    requires t <= n <= |text|
    ensures t <= q <= n && WholeLevels(text, t, q) && forall k :: q <= k < n ==> text[k] != '/'
  {
    q := n;
    while q > t && text[q - 1] != '/'
      invariant t <= q <= n && forall k :: q <= k < n ==> text[k] != '/'
    {
      q := q - 1;
    }
  }

  /** A star after a `**` takes what is left of a level. */
  lemma StarTakesRest(tokens: seq<Token>, p: nat, text: seq<char>, t: nat, n: nat)
    requires p + 1 < |tokens| && tokens[p].AnyDirs? && tokens[p + 1].Star? && t <= n <= |text|
    requires MatchesWhole(tokens, p + 1, text, n)
    ensures MatchesWhole(tokens, p, text, t)
  {
    var m :| n <= m <= |text| && RunWhole(tokens, p + 1, text, n, m) && MatchesWhole(tokens, p + 2, text, m);
    var q := LevelStart(text, t, n);
    assert RunWhole(tokens, p + 1, text, q, m);
    assert MatchesWhole(tokens, p + 1, text, q);
    assert RunWhole(tokens, p, text, t, q);
  }

  /** A loose `**` may as well start earlier. */
  lemma {:induction false} StartsEarlier(tokens: seq<Token>, p: nat, text: seq<char>, t: nat, n: nat)
    requires p < |tokens| && tokens[p].AnyDirs? && Loose(tokens, p) && t <= n <= |text|
    requires MatchesWhole(tokens, p, text, n)
    ensures MatchesWhole(tokens, p, text, t)
    decreases |tokens| - p
  {
    var m :| n <= m <= |text| && RunWhole(tokens, p, text, n, m) && MatchesWhole(tokens, p + 1, text, m);
    if p + 1 == |tokens| || m > n {
      assert RunWhole(tokens, p, text, t, m);
    } else {
      LooseNext(tokens, p);
      if tokens[p + 1].Star? {
        StarTakesRest(tokens, p, text, t, n);
      } else {
        StartsEarlier(tokens, p + 1, text, t, n);
        assert RunWhole(tokens, p, text, t, t);
      }
    }
  }

  ghost predicate AllLoose(tokens: seq<Token>) {
    forall i :: 0 <= i < |tokens| && tokens[i].AnyDirs? ==> Loose(tokens, i)
  }

  lemma {:induction false} LooseIsWhole(tokens: seq<Token>, p: nat, text: seq<char>, t: nat)
    requires p <= |tokens| && t <= |text| && AllLoose(tokens) && Matches(tokens, p, text, t, false)
    ensures MatchesWhole(tokens, p, text, t)
    decreases |tokens| - p
  {
    if p < |tokens| {
      if tokens[p].Wild() {
        var n :| t <= n <= |text| && Run(tokens[p], text, t, n, false) && Matches(tokens, p + 1, text, n, false);
        LooseIsWhole(tokens, p + 1, text, n);
        if tokens[p].Star? || p + 1 == |tokens| {
          assert RunWhole(tokens, p, text, t, n);
        } else {
          LooseNext(tokens, p);
          if tokens[p + 1].Star? {
            StarTakesRest(tokens, p, text, t, n);
          } else {
            StartsEarlier(tokens, p + 1, text, t, n);
            assert RunWhole(tokens, p, text, t, t);
          }
        }
      } else {
        LooseIsWhole(tokens, p + 1, text, t + 1);
      }
    }
  }

  // ---- Where a character does ----

  /** `tokens[a..g]` are `**`s and no other wildcards are next to them, and they
      are not the last of the tokens. */
  predicate Tight(tokens: seq<Token>, a: nat, g: nat) {
    && a < g < |tokens|
    && (forall j :: a <= j < g ==> tokens[j].AnyDirs?)
    && !tokens[g].Wild() && (a > 0 ==> !tokens[a - 1].Wild())
  }

  /** A character that tells: the token after them does not stand for it, nor
      does any before them that comes after some wildcard. */
  ghost predicate Tells(tokens: seq<Token>, a: nat, g: nat, z: char)
    requires a <= g < |tokens| && !tokens[g].Wild()
  {
    && z != '/' && !TakesOne(tokens[g], z, false)
    && forall j :: 0 <= j < a && !tokens[j].Wild() && AfterWild(tokens, j) ==> !TakesOne(tokens[j], z, false)
  }

  ghost predicate AfterWild(tokens: seq<Token>, j: nat)
    requires j <= |tokens|
  {
    exists w :: 0 <= w < j && tokens[w].Wild()
  }

  /** No token matches less than a character. */
  lemma {:induction false} EnoughText(tokens: seq<Token>, p: nat, text: seq<char>, t: nat)
    requires p <= |tokens| && t <= |text| && !Hopeless(tokens) && MatchesWhole(tokens, p, text, t)
    ensures |text| - t >= |Word(tokens, p, |tokens|)|
    decreases |tokens| - p
  {
    if p < |tokens| {
      if tokens[p].Wild() {
        var n :| t <= n <= |text| && RunWhole(tokens, p, text, t, n) && MatchesWhole(tokens, p + 1, text, n);
        EnoughText(tokens, p + 1, text, n);
      } else {
        EnoughText(tokens, p + 1, text, t + 1);
      }
    }
  }

  lemma {:induction false} WordJoins(tokens: seq<Token>, a: nat, b: nat, c: nat)
    requires a <= b <= c <= |tokens| && !Hopeless(tokens)
    ensures Word(tokens, a, c) == Word(tokens, a, b) + Word(tokens, b, c)
    decreases b - a
  {
    if a < b {
      WordJoins(tokens, a + 1, b, c);
    }
  }

  lemma {:induction false} WordOfWild(tokens: seq<Token>, a: nat, b: nat)
    requires a <= b <= |tokens| && !Hopeless(tokens) && forall j :: a <= j < b ==> tokens[j].Wild()
    ensures Word(tokens, a, b) == []
    decreases b - a
  {
    if a < b {
      WordOfWild(tokens, a + 1, b);
    }
  }

  /** A text that such a pattern means, but not as whole levels. */
  ghost function Told(tokens: seq<Token>, a: nat, g: nat, z: char): seq<char>
    requires a <= g <= |tokens| && !Hopeless(tokens)
  {
    Word(tokens, 0, a) + [z] + Word(tokens, g, |tokens|)
  }

  lemma ToldParts(tokens: seq<Token>, a: nat, g: nat, z: char)
    requires Tight(tokens, a, g) && !Hopeless(tokens)
    ensures var text := Told(tokens, a, g, z);
            && |text| == |Word(tokens, 0, |tokens|)| + 1 && text[|Word(tokens, 0, a)|] == z
            && Word(tokens, a, |tokens|) == Word(tokens, g, |tokens|) == Word(tokens, a + 1, |tokens|)
  {
    WordJoins(tokens, 0, a, |tokens|);
    WordJoins(tokens, a, g, |tokens|);
    WordJoins(tokens, a + 1, g, |tokens|);
    WordOfWild(tokens, a, g);
    WordOfWild(tokens, a + 1, g);
  }

  /** With a character taken too early, the last token before them meets `z`. */
  lemma {:induction false} ShiftedFails(tokens: seq<Token>, a: nat, g: nat, z: char, p: nat, t: nat)
    requires Tight(tokens, a, g) && Tells(tokens, a, g, z) && !Hopeless(tokens) && p < a && AfterWild(tokens, p)
    requires t == |Word(tokens, 0, p)| + 1 && t <= |Told(tokens, a, g, z)|
    ensures !MatchesWhole(tokens, p, Told(tokens, a, g, z), t)
    decreases a - p
  {
    hide Word, Told, Hopeless, RunWhole;
    var text := Told(tokens, a, g, z);
    ToldParts(tokens, a, g, z);
    WordJoins(tokens, 0, p, |tokens|);
    WordJoins(tokens, 0, p, p + 1);
    WordJoins(tokens, 0, p + 1, |tokens|);
    WordOfOne(tokens, p);
    if MatchesWhole(tokens, p, text, t) {
      if tokens[p].Wild() {
        var n :| t <= n <= |text| && RunWhole(tokens, p, text, t, n) && MatchesWhole(tokens, p + 1, text, n);
        EnoughText(tokens, p + 1, text, n);
        assert n == t && p + 1 < a;
        ShiftedFails(tokens, a, g, z, p + 1, t);
      } else if p + 1 < a {
        assert AfterWild(tokens, p + 1);
        ShiftedFails(tokens, a, g, z, p + 1, t + 1);
      }
    }
  }

  lemma WordOfOne(tokens: seq<Token>, p: nat)
    requires p < |tokens| && !Hopeless(tokens)
    ensures |Word(tokens, p, p + 1)| == if tokens[p].Wild() then 0 else 1
  {
    assert Word(tokens, p + 1, p + 1) == [];
  }

  /** How much of the text the tokens so far take, and how much is left. */
  lemma ToldSoFar(tokens: seq<Token>, a: nat, g: nat, z: char, p: nat)
    requires Tight(tokens, a, g) && !Hopeless(tokens) && p < g
    ensures var text, t := Told(tokens, a, g, z), |Word(tokens, 0, p)|;
            && |text| == t + |Word(tokens, p, |tokens|)| + 1 && text[|Word(tokens, 0, a)|] == z
            && |Word(tokens, 0, p + 1)| == t + (if tokens[p].Wild() then 0 else 1)
            && |Word(tokens, p, |tokens|)| == |Word(tokens, p + 1, |tokens|)| + (if tokens[p].Wild() then 0 else 1)
            && (p >= a ==> t == |Word(tokens, 0, a)|)
  {
    ToldParts(tokens, a, g, z);
    WordJoins(tokens, 0, p, |tokens|);
    WordJoins(tokens, 0, p, p + 1);
    WordJoins(tokens, p, p + 1, |tokens|);
    WordOfOne(tokens, p);
    if p >= a {
      WordJoins(tokens, 0, a, p);
      WordOfWild(tokens, a, p);
    }
  }

  lemma {:induction false} GroupFails(tokens: seq<Token>, a: nat, g: nat, z: char, p: nat)
    requires Tight(tokens, a, g) && Tells(tokens, a, g, z) && !Hopeless(tokens) && a <= p <= g
    ensures |Word(tokens, 0, a)| <= |Told(tokens, a, g, z)|
    ensures !MatchesWhole(tokens, p, Told(tokens, a, g, z), |Word(tokens, 0, a)|)
    decreases g - p
  {
    hide Word, Hopeless;
    var text, t := Told(tokens, a, g, z), |Word(tokens, 0, a)|;
    ToldParts(tokens, a, g, z);
    if p < g {
      ToldSoFar(tokens, a, g, z, p);
      GroupFails(tokens, a, g, z, p + 1);
      if MatchesWhole(tokens, p, text, t) {
        var n :| t <= n <= |text| && RunWhole(tokens, p, text, t, n) && MatchesWhole(tokens, p + 1, text, n);
        EnoughText(tokens, p + 1, text, n);
      }
    }
  }

  lemma {:induction false} ToldIsNotWhole(tokens: seq<Token>, a: nat, g: nat, z: char, p: nat)
    requires Tight(tokens, a, g) && Tells(tokens, a, g, z) && !Hopeless(tokens) && p <= a
    ensures |Word(tokens, 0, p)| <= |Told(tokens, a, g, z)|
    ensures !MatchesWhole(tokens, p, Told(tokens, a, g, z), |Word(tokens, 0, p)|)
    decreases a - p
  {
    hide Word, Told, Hopeless, RunWhole;
    var text, t := Told(tokens, a, g, z), |Word(tokens, 0, p)|;
    if p == a {
      GroupFails(tokens, a, g, z, a);
    } else {
      ToldSoFar(tokens, a, g, z, p);
      ToldIsNotWhole(tokens, a, g, z, p + 1);
      if MatchesWhole(tokens, p, text, t) && tokens[p].Wild() {
        var n :| t <= n <= |text| && RunWhole(tokens, p, text, t, n) && MatchesWhole(tokens, p + 1, text, n);
        EnoughText(tokens, p + 1, text, n);
        if n > t {
          assert AfterWild(tokens, p + 1) && p + 1 < a;
          ShiftedFails(tokens, a, g, z, p + 1, n);
        }
      }
    }
  }

  /** Where some character tells, they do stand for part of a level. */
  lemma PartOfALevel(tokens: seq<Token>, a: nat, g: nat, z: char)
    requires Tight(tokens, a, g) && Tells(tokens, a, g, z) && !Hopeless(tokens)
    ensures Means(tokens, Told(tokens, a, g, z), false) && !MeansWhole(tokens, Told(tokens, a, g, z))
  {
    ToldParts(tokens, a, g, z);
    ToldIsNotWhole(tokens, a, g, z, 0);
    DefeatMeant(tokens, a, Told(tokens, a, g, z), Word(tokens, 0, a), [z], Word(tokens, g, |tokens|));
  }

  // ---- Exactly where they are whole ----

  /** No star comes right before a wildcard. */
  predicate Spaced(tokens: seq<Token>) {
    forall i :: 0 <= i < |tokens| - 1 && tokens[i].Star? ==> !tokens[i + 1].Wild()
  }

  /** In a pattern as it is split up, none does. */
  lemma {:induction false} SplitUpSpaced(chars: string, i: nat)
    ensures Spaced(Exclusions.TokensFrom(chars, i, true))
    ensures i < |chars| && chars[i] != '*' && Exclusions.TokensFrom(chars, i, true) != [] ==>
              !Exclusions.TokensFrom(chars, i, true)[0].Wild()
    decreases |chars| - i
  {
    if i < |chars| {
      var (token, next) := Exclusions.TokenAt(chars, i, true);
      SplitUpSpaced(chars, next);
      var rest := Exclusions.TokensFrom(chars, next, true);
      if token.Star? {
        assert next == i + 1;
      }
    }
  }

  /** Of a `**` that is not loose, the ones next to it, and the token after. */
  lemma TightAround(tokens: seq<Token>, i: nat) returns (a: nat, g: nat)
    requires i < |tokens| && tokens[i].AnyDirs? && !Loose(tokens, i) && Spaced(tokens)
    ensures Tight(tokens, a, g) && a <= i < g
  {
    a, g := i, i;
    while tokens[g].Wild()
      invariant i <= g < |tokens| && forall k :: i <= k < g ==> tokens[k].AnyDirs?
      decreases |tokens| - g
    {
      assert WildTo(tokens, i, g);
      g := g + 1;
    }
    while a > 0 && tokens[a - 1].Wild()
      invariant a <= i && forall k :: a <= k < g ==> tokens[k].AnyDirs?
    {
      assert tokens[a - 1 + 1].Wild();
      a := a - 1;
    }
  }

  /** Some `**` that is not loose can be told. */
  ghost predicate SomeTold(tokens: seq<Token>) {
    exists a, g, z :: Tight(tokens, a, g) && Tells(tokens, a, g, z)
  }

  /** Where some `**` can be told of those that are not loose, if any, the pattern
      means the same on every text whether they stand for whole levels or for
      anything if and only if each goes on to a star or to the end, or the pattern
      means nothing at all. */
  lemma WholeLevelsIff(tokens: seq<Token>)
    requires AllLoose(tokens) || SomeTold(tokens)
    ensures (forall text :: Means(tokens, text, false) <==> MeansWhole(tokens, text)) <==>
            Hopeless(tokens) || AllLoose(tokens)
  {
    forall text
      ensures MeansWhole(tokens, text) ==> Means(tokens, text, false)
      ensures AllLoose(tokens) && Means(tokens, text, false) ==> MeansWhole(tokens, text)
      ensures Hopeless(tokens) ==> !Means(tokens, text, false)
    {
      if MeansWhole(tokens, text) {
        WholeIsMeant(tokens, 0, text, 0);
      }
      if AllLoose(tokens) && Means(tokens, text, false) {
        LooseIsWhole(tokens, 0, text, 0);
      }
      if Hopeless(tokens) {
        var at :| 0 <= at < |tokens| && !tokens[at].Wild() && forall c :: !TakesOne(tokens[at], c, false);
        HopelessMeansNothing(tokens, 0, text, 0, at);
      }
    }
    if !Hopeless(tokens) && !AllLoose(tokens) {
      var a, g, z :| Tight(tokens, a, g) && Tells(tokens, a, g, z);
      PartOfALevel(tokens, a, g, z);
    }
  }

  /** It is enough that some character is stood for by no token, as in any list of
      literals. */
  lemma PlainWholeLevelsIff(tokens: seq<Token>, z: char)
    requires Spaced(tokens) && z != '/'
    requires forall j :: 0 <= j < |tokens| && !tokens[j].Wild() ==> !TakesOne(tokens[j], z, false)
    ensures (forall text :: Means(tokens, text, false) <==> MeansWhole(tokens, text)) <==>
            Hopeless(tokens) || AllLoose(tokens)
  {
    if !AllLoose(tokens) {
      var i :| 0 <= i < |tokens| && tokens[i].AnyDirs? && !Loose(tokens, i);
      var a, g := TightAround(tokens, i);
      assert Tells(tokens, a, g, z);
    }
    hide Means, MeansWhole, Hopeless, AllLoose, Spaced;
    WholeLevelsIff(tokens);
  }

  // Where a `**` cannot be told, what comes after it may make up for it: in
  // `**/?*` it does, and the pattern means the same although it is not loose.
  lemma MadeUpFor(text: string)
    ensures var tokens := Exclusions.TokensFrom("**/?*", 0, true);
            !AllLoose(tokens) && !SomeTold(tokens) && (Means(tokens, text, false) <==> MeansWhole(tokens, text))
  {
    var tokens := [AnyDirs, Any, Star];
    SplitUpAny();
    AnyIsNotTold();
    if Means(tokens, text, false) {
      var n :| 0 <= n <= |text| && Run(AnyDirs, text, 0, n, false) && Matches(tokens, 1, text, n, false);
      var m :| n + 1 <= m <= |text| && Run(Star, text, n + 1, m, false) && Matches(tokens, 3, text, m, false);
      var q := LevelStart(text, 0, n);
      assert text[q] != '/' && RunWhole(tokens, 2, text, q + 1, m) && MatchesWhole(tokens, 3, text, m);
      assert MatchesWhole(tokens, 2, text, q + 1);
      assert MatchesWhole(tokens, 1, text, q) && RunWhole(tokens, 0, text, 0, q);
    }
    if MeansWhole(tokens, text) {
      WholeIsMeant(tokens, 0, text, 0);
    }
  }

  lemma SplitUpAny()
    ensures Exclusions.TokensFrom("**/?*", 0, true) == [AnyDirs, Any, Star]
  {
    assert Exclusions.TokensFrom("**/?*", 5, true) == [];
    assert Exclusions.TokensFrom("**/?*", 4, true) == [Star];
    assert Exclusions.TokensFrom("**/?*", 3, true) == [Any, Star];
  }

  lemma AnyIsNotTold()
    ensures !AllLoose([AnyDirs, Any, Star]) && !SomeTold([AnyDirs, Any, Star])
  {
    var tokens := [AnyDirs, Any, Star];
    assert tokens[1] == Any && !tokens[1].Wild();
    forall j | 0 <= j < |tokens| && WildTo(tokens, 0, j)
      ensures j == 0
    {
    }
    assert tokens[0].AnyDirs? && !Loose(tokens, 0);
    assert Tight(tokens, 0, 1);
  }

  // One such pattern: `sh:**/foo` excludes `barfoo`.
  lemma ExcludesBarfoo()
    ensures var tokens := Exclusions.TokensFrom("**/foo", 0, true);
            Glob(tokens, "barfoo", false) && Means(tokens, "barfoo", false) && !MeansWhole(tokens, "barfoo")
  {
    var tokens := [AnyDirs, Literal('f'), Literal('o'), Literal('o')];
    SplitUpFoo();
    assert forall n :: 0 <= n <= 6 && RunWhole(tokens, 0, "barfoo", 0, n) ==> n == 0;
    assert !MatchesWhole(tokens, 1, "barfoo", 0);
    assert Loop(tokens, "barfoo", false, 0, 0, Nowhere);
    GlobSound(tokens, "barfoo", false);
  }

  lemma SplitUpFoo()
    ensures Exclusions.TokensFrom("**/foo", 0, true) == [AnyDirs, Literal('f'), Literal('o'), Literal('o')]
  {
    var chars := "**/foo";
    assert Exclusions.TokenAt(chars, 0, true) == (AnyDirs, 3);
    assert Exclusions.TokensFrom(chars, 6, true) == [];
    assert Exclusions.TokensFrom(chars, 5, true) == [Literal('o')];
    assert Exclusions.TokensFrom(chars, 4, true) == [Literal('o'), Literal('o')];
  }
}
