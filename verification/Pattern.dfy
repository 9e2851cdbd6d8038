/** Exclusion patterns, matched locally (crates/backtrack-core/src/pattern.rs).

    The source matches with one loop that remembers only the last wildcard.
    `Matches` says what a token list means; the lemmas say on exactly which
    token lists the loop agrees with it. */
module Pattern {

  datatype ClassItem = Char(c: char) | Range(lo: char, hi: char)

  datatype Token =
    | Literal(c: char)
    | Any
    | Star
    | AnyDirs
    | Class(negated: bool, items: seq<ClassItem>)
  {
    predicate Wild() {
      Star? || AnyDirs?
    }
  }

  predicate ItemMatches(item: ClassItem, c: char) {
    match item
    case Char(x) => x == c
    case Range(lo, hi) => lo <= c <= hi
  }

  predicate ClassMatches(negated: bool, items: seq<ClassItem>, c: char) {
    (exists i :: 0 <= i < |items| && ItemMatches(items[i], c)) != negated
  }

  /** Whether a token that stands for one character stands for `c`. `cross` is
      Borg's default style, in which wildcards cross '/'. */
  predicate TakesOne(token: Token, c: char, cross: bool)
    requires !token.Wild()
  {
    match token
    case Literal(x) => x == c
    case Any => cross || c != '/'
    case Class(negated, items) => (cross || c != '/') && ClassMatches(negated, items, c)
  }

  /** Whether a wildcard may stand for a run of characters with `c` in it. */
  predicate Swallows(token: Token, c: char, cross: bool)
    requires token.Wild()
  {
    token.AnyDirs? || cross || c != '/'
  }

  // ---- What a token list means ----

  /** `tokens[p..]` matches `text[t..]`: a wildcard takes any run of characters
      it may swallow, any other token takes one. */
  ghost predicate Matches(tokens: seq<Token>, p: nat, text: seq<char>, t: nat, cross: bool)
    requires p <= |tokens| && t <= |text|
    decreases |tokens| - p
  {
    if p == |tokens| then
      t == |text|
    else if tokens[p].Wild() then
      exists n :: t <= n <= |text| && Run(tokens[p], text, t, n, cross) && Matches(tokens, p + 1, text, n, cross)
    else
      t < |text| && TakesOne(tokens[p], text[t], cross) && Matches(tokens, p + 1, text, t + 1, cross)
  }

  ghost predicate Run(token: Token, text: seq<char>, from: nat, to: nat, cross: bool)
    requires token.Wild() && from <= to <= |text|
  {
    forall k :: from <= k < to ==> Swallows(token, text[k], cross)
  }

  ghost predicate Means(tokens: seq<Token>, text: seq<char>, cross: bool) {
    Matches(tokens, 0, text, 0, cross)
  }

  // ---- The meaning, piece by piece ----

  /** What each token stands for. */
  predicate StandsFor(token: Token, piece: seq<char>, cross: bool) {
    match token
    case Literal(c) => piece == [c]
    case Any => |piece| == 1 && (cross || piece[0] != '/')
    case Star => cross || '/' !in piece
    case AnyDirs => true
    case Class(negated, items) =>
      && |piece| == 1 && (cross || piece[0] != '/')
      && (negated <==> forall i :: 0 <= i < |items| ==>
            match items[i]
            case Char(c) => piece[0] != c
            case Range(lo, hi) => piece[0] < lo || hi < piece[0])
  }

  function Flat(pieces: seq<seq<char>>): seq<char> {
    if pieces == [] then [] else pieces[0] + Flat(pieces[1..])
  }

  ghost predicate AllStand(tokens: seq<Token>, pieces: seq<seq<char>>, cross: bool) {
    |pieces| == |tokens| && forall i :: 0 <= i < |tokens| ==> StandsFor(tokens[i], pieces[i], cross)
  }

  lemma OneStands(token: Token, c: char, cross: bool)
    requires !token.Wild()
    ensures TakesOne(token, c, cross) <==> StandsFor(token, [c], cross)
  {
    if token.Class? {
      assert [c][0] == c;
      assert forall i :: 0 <= i < |token.items| ==>
          (ItemMatches(token.items[i], c) <==> !(match token.items[i]
                                                 case Char(x) => c != x
                                                 case Range(lo, hi) => c < lo || hi < c));
    }
  }

  lemma RunStands(token: Token, text: seq<char>, from: nat, to: nat, cross: bool)
    requires token.Wild() && from <= to <= |text|
    ensures Run(token, text, from, to, cross) <==> StandsFor(token, text[from..to], cross)
  {
    assert forall k :: from <= k < to ==> text[k] == text[from..to][k - from];
  }

  lemma {:induction false} ToPieces(tokens: seq<Token>, p: nat, text: seq<char>, t: nat, cross: bool)
    returns (pieces: seq<seq<char>>)
    requires p <= |tokens| && t <= |text| && Matches(tokens, p, text, t, cross)
    ensures AllStand(tokens[p..], pieces, cross) && Flat(pieces) == text[t..]
    decreases |tokens| - p
  {
    pieces := [];
    if p < |tokens| {
      var n := t + 1;
      if tokens[p].Wild() {
        n :| t <= n <= |text| && Run(tokens[p], text, t, n, cross) && Matches(tokens, p + 1, text, n, cross);
        RunStands(tokens[p], text, t, n, cross);
      } else {
        OneStands(tokens[p], text[t], cross);
        assert text[t..n] == [text[t]];
      }
      var rest := ToPieces(tokens, p + 1, text, n, cross);
      hide StandsFor;
      pieces := [text[t..n]] + rest;
      assert pieces[1..] == rest && text[t..] == text[t..n] + text[n..] && tokens[p..] == [tokens[p]] + tokens[p + 1..];
    }
  }

  lemma {:induction false} FromPieces(tokens: seq<Token>, p: nat, text: seq<char>, t: nat, cross: bool,
                                      pieces: seq<seq<char>>)
    requires p <= |tokens| && t <= |text| && AllStand(tokens[p..], pieces, cross) && Flat(pieces) == text[t..]
    ensures Matches(tokens, p, text, t, cross)
    decreases |tokens| - p
  {
    if p < |tokens| {
      var n := t + |pieces[0]|;
      assert text[t..] == pieces[0] + Flat(pieces[1..]);
      assert text[t..][..|pieces[0]|] == pieces[0] && text[t..][|pieces[0]|..] == Flat(pieces[1..]);
      assert text[t..n] == pieces[0] && text[n..] == Flat(pieces[1..]);
      assert StandsFor(tokens[p..][0], pieces[0], cross) && tokens[p..][1..] == tokens[p + 1..];
      FromPieces(tokens, p + 1, text, n, cross, pieces[1..]);
      if tokens[p].Wild() {
        RunStands(tokens[p], text, t, n, cross);
      } else {
        assert |pieces[0]| == 1;
        OneStands(tokens[p], text[t], cross);
        assert pieces[0] == [text[t]];
      }
    }
  }

  /** A text is meant if and only if it is in pieces, one for each token, that the
      tokens stand for. */
  lemma MeansInPieces(tokens: seq<Token>, text: seq<char>, cross: bool)
    ensures Means(tokens, text, cross) <==>
            exists pieces :: AllStand(tokens, pieces, cross) && Flat(pieces) == text
  {
    assert tokens[0..] == tokens && text[0..] == text;
    if Means(tokens, text, cross) {
      var pieces := ToPieces(tokens, 0, text, 0, cross);
    }
    if pieces :| AllStand(tokens, pieces, cross) && Flat(pieces) == text {
      FromPieces(tokens, 0, text, 0, cross, pieces);
    }
  }

  // ---- The loop ----

  /** Where to resume from if the last wildcard's guess turns out wrong. */
  datatype Resume = Nowhere | At(pattern: nat, text: nat)

  predicate Consistent(tokens: seq<Token>, text: seq<char>, p: nat, t: nat, star: Resume) {
    && p <= |tokens| && t <= |text|
    && (star.At? ==> star.pattern < p && star.text <= t && tokens[star.pattern].Wild())
  }

  predicate AllWild(tokens: seq<Token>, p: nat)
    requires p <= |tokens|
  {
    forall i :: p <= i < |tokens| ==> tokens[i].Wild()
  }

  /** The rest of the source's loop, from the given values of its variables. */
  predicate Loop(tokens: seq<Token>, text: seq<char>, cross: bool, p: nat, t: nat, star: Resume)
    requires Consistent(tokens, text, p, t, star)
    decreases |text| - (if star.At? then star.text else -1), |tokens| - p
  {
    if t == |text| then
      AllWild(tokens, p)
    else if p < |tokens| && tokens[p].Wild() then
      Loop(tokens, text, cross, p + 1, t, At(p, t))
    else if p < |tokens| && TakesOne(tokens[p], text[t], cross) then
      Loop(tokens, text, cross, p + 1, t + 1, star)
    else if star.At? && Swallows(tokens[star.pattern], text[star.text], cross) then
      Loop(tokens, text, cross, star.pattern + 1, star.text + 1, At(star.pattern, star.text + 1))
    else
      false
  }

  predicate Glob(tokens: seq<Token>, text: seq<char>, cross: bool) {
    Loop(tokens, text, cross, 0, 0, Nowhere)
  }

  /** The matcher itself, and how many times its loop can go round. */
  method GlobMatch(tokens: seq<Token>, text: seq<char>, cross: bool) returns (matched: bool, ghost rounds: nat)
    ensures matched == Glob(tokens, text, cross)
    ensures rounds <= (|text| + 1) * (|tokens| + 1)
  {
    var t, p := 0, 0;
    var star := Nowhere;
    rounds := 0;
    while t < |text|
      invariant Consistent(tokens, text, p, t, star)
      invariant Loop(tokens, text, cross, p, t, star) == Glob(tokens, text, cross)
      invariant rounds <= Rank(tokens, p, star)
      decreases |text| - (if star.At? then star.text else -1), |tokens| - p
    {
      rounds := rounds + 1;
      if p < |tokens| && tokens[p].Wild() {
        RankGrows(tokens, p, t, star);
        star := At(p, t);
        p := p + 1;
        continue;
      }
      if p < |tokens| && TakesOne(tokens[p], text[t], cross) {
        p := p + 1;
        t := t + 1;
        continue;
      }
      match star {
        case At(sp, st) =>
          if !Swallows(tokens[sp], text[st], cross) {
            RankBound(tokens, text, p, t, star);
            return false, rounds;
          }
          RankSteps(tokens, p, sp, st);
          p := sp + 1;
          t := st + 1;
          star := At(sp, st + 1);
        case Nowhere =>
          RankBound(tokens, text, p, t, star);
          return false, rounds;
      }
    }
    RankBound(tokens, text, p, t, star);
    while p < |tokens|
      invariant p <= |tokens|
      invariant AllWild(tokens, p) == Glob(tokens, text, cross)
    {
      if !tokens[p].Wild() {
        return false, rounds;
      }
      p := p + 1;
    }
    matched := true;
  }

  /** A bound on the rounds gone so far: the wildcard's place in the text never
      moves back, and while it stays the pattern position only grows. */
  ghost function Rank(tokens: seq<Token>, p: nat, star: Resume): nat {
    (if star.At? then star.text else 0) * (|tokens| + 1) + p
  }

  lemma RankGrows(tokens: seq<Token>, p: nat, t: nat, star: Resume)
    requires star.At? ==> star.text <= t
    ensures Rank(tokens, p, star) + 1 <= Rank(tokens, p + 1, At(p, t))
  {
    var st := if star.At? then star.text else 0;
    assert st * (|tokens| + 1) <= t * (|tokens| + 1);
  }

  lemma RankSteps(tokens: seq<Token>, p: nat, sp: nat, st: nat)
    requires p <= |tokens|
    ensures Rank(tokens, p, At(sp, st)) + 1 <= Rank(tokens, sp + 1, At(sp, st + 1))
  {
    assert (st + 1) * (|tokens| + 1) == st * (|tokens| + 1) + |tokens| + 1;
  }

  lemma RankBound(tokens: seq<Token>, text: seq<char>, p: nat, t: nat, star: Resume)
    requires Consistent(tokens, text, p, t, star)
    ensures Rank(tokens, p, star) + 1 <= (|text| + 1) * (|tokens| + 1)
  {
    var st := if star.At? then star.text else 0;
    assert st * (|tokens| + 1) <= |text| * (|tokens| + 1);
    assert (|text| + 1) * (|tokens| + 1) == |text| * (|tokens| + 1) + |tokens| + 1;
  }

  // ---- Soundness: every token list, both styles ----

  lemma {:induction false} WildTail(tokens: seq<Token>, p: nat, text: seq<char>, cross: bool)
    requires p <= |tokens|
    ensures Matches(tokens, p, text, |text|, cross) <==> AllWild(tokens, p)
    decreases |tokens| - p
  {
    if p < |tokens| {
      WildTail(tokens, p + 1, text, cross);
      if tokens[p].Wild() && AllWild(tokens, p + 1) {
        assert Run(tokens[p], text, |text|, |text|, cross);
      }
    }
  }

  /** A wildcard that matches from a later place matches from an earlier one,
      if it may swallow what lies between. */
  lemma Extend(tokens: seq<Token>, p: nat, text: seq<char>, t: nat, n: nat, cross: bool)
    requires p < |tokens| && tokens[p].Wild() && t <= n <= |text|
    requires Run(tokens[p], text, t, n, cross)
    requires Matches(tokens, p, text, n, cross) || Matches(tokens, p + 1, text, n, cross)
    ensures Matches(tokens, p, text, t, cross)
  {
    if !Matches(tokens, p + 1, text, n, cross) {
      var m :| n <= m <= |text| && Run(tokens[p], text, n, m, cross) && Matches(tokens, p + 1, text, m, cross);
      assert Run(tokens[p], text, t, m, cross);
    }
  }

  lemma {:induction false} LoopSound(tokens: seq<Token>, text: seq<char>, cross: bool, p: nat, t: nat, star: Resume)
    requires Consistent(tokens, text, p, t, star)
    requires Loop(tokens, text, cross, p, t, star)
    ensures Matches(tokens, p, text, t, cross) || (star.At? && Matches(tokens, star.pattern, text, star.text, cross))
    decreases |text| - (if star.At? then star.text else -1), |tokens| - p
  {
    if t == |text| {
      WildTail(tokens, p, text, cross);
    } else if p < |tokens| && tokens[p].Wild() {
      LoopSound(tokens, text, cross, p + 1, t, At(p, t));
      Extend(tokens, p, text, t, t, cross);
    } else if p < |tokens| && TakesOne(tokens[p], text[t], cross) {
      LoopSound(tokens, text, cross, p + 1, t + 1, star);
    } else {
      var At(sp, st) := star;
      LoopSound(tokens, text, cross, sp + 1, st + 1, At(sp, st + 1));
      Extend(tokens, sp, text, st, st + 1, cross);
    }
  }

  /** Whatever the loop accepts, the tokens do mean. */
  lemma GlobSound(tokens: seq<Token>, text: seq<char>, cross: bool)
    requires Glob(tokens, text, cross)
    ensures Means(tokens, text, cross)
  {
    LoopSound(tokens, text, cross, 0, 0, Nowhere);
  }

  // ---- Completeness, where committing to the earliest place loses nothing ----

  /** `tokens[a..b]`, none of them wild, take `text[t..]` one character each. */
  ghost predicate Block(tokens: seq<Token>, a: nat, b: nat, text: seq<char>, t: nat, cross: bool)
    requires a <= b <= |tokens|
  {
    && t + (b - a) <= |text|
    && forall i :: a <= i < b ==> !tokens[i].Wild() && TakesOne(tokens[i], text[t + (i - a)], cross)
  }

  ghost predicate NoWild(tokens: seq<Token>, a: nat, b: nat)
    requires a <= b <= |tokens|
  {
    forall i :: a <= i < b ==> !tokens[i].Wild()
  }

  lemma {:induction false} Straight(tokens: seq<Token>, a: nat, b: nat, text: seq<char>, t: nat, cross: bool)
    requires a <= b <= |tokens| && t <= |text| && NoWild(tokens, a, b)
    ensures Matches(tokens, a, text, t, cross) <==>
            Block(tokens, a, b, text, t, cross) && Matches(tokens, b, text, t + (b - a), cross)
    decreases b - a
  {
    if a < b && t < |text| {
      Straight(tokens, a + 1, b, text, t + 1, cross);
      if Block(tokens, a + 1, b, text, t + 1, cross) && TakesOne(tokens[a], text[t], cross) {
        forall i | a <= i < b
          ensures TakesOne(tokens[i], text[t + (i - a)], cross)
        {
          assert i > a ==> TakesOne(tokens[i], text[t + 1 + (i - (a + 1))], cross);
        }
      }
      if Block(tokens, a, b, text, t, cross) {
        assert TakesOne(tokens[a], text[t + (a - a)], cross);
        forall i | a + 1 <= i < b
          ensures TakesOne(tokens[i], text[t + 1 + (i - (a + 1))], cross)
        {
          assert TakesOne(tokens[i], text[t + (i - a)], cross);
        }
      }
    }
  }

  /** A `*` at `j` that is followed at once by another wildcard, or by a '/' and
      then another wildcard. */
  predicate Followed(tokens: seq<Token>, j: nat)
    requires j < |tokens|
  {
    && j + 1 < |tokens|
    && (|| tokens[j + 1].Wild()
        || (tokens[j + 1] == Literal('/') && j + 2 < |tokens| && tokens[j + 2].Wild()))
  }

  /** No `*` after a `**` has anything before the next wildcard to look for but
      the next '/'. */
  predicate Clear(tokens: seq<Token>) {
    forall i, j :: 0 <= i < j < |tokens| && tokens[i].AnyDirs? && tokens[j].Star? ==> Followed(tokens, j)
  }

  predicate ClearFrom(tokens: seq<Token>, p: nat) {
    forall j :: p <= j < |tokens| && tokens[j].Star? ==> Followed(tokens, j)
  }

  /** After a `**`, in a clear list, matching from a later place in the text is
      matching from an earlier one. */
  lemma {:induction false} Slide(tokens: seq<Token>, p: nat, text: seq<char>, t: nat, later: nat)
    requires p < |tokens| && tokens[p].Wild() && ClearFrom(tokens, p)
    requires t <= later <= |text| && Matches(tokens, p, text, later, false)
    ensures Matches(tokens, p, text, t, false)
    decreases |tokens| - p
  {
    if tokens[p].AnyDirs? {
      Extend(tokens, p, text, t, later, false);
    } else {
      assert Followed(tokens, p);
      var n :| later <= n <= |text| && Run(tokens[p], text, later, n, false) && Matches(tokens, p + 1, text, n, false);
      if tokens[p + 1].Wild() {
        Slide(tokens, p + 1, text, t, n);
        Extend(tokens, p, text, t, t, false);
      } else {
        var q := FirstSlash(text, t, n);
        Slide(tokens, p + 2, text, q + 1, n + 1);
        Extend(tokens, p, text, t, q, false);
      }
    }
  }

  lemma FirstSlash(text: seq<char>, t: nat, n: nat) returns (q: nat)
    requires t <= n < |text| && text[n] == '/'
    ensures t <= q <= n && text[q] == '/'
    ensures forall k :: t <= k < q ==> text[k] != '/'
  {
    q := t;
    while text[q] != '/'
      invariant t <= q <= n
      invariant forall k :: t <= k < q ==> text[k] != '/'
      decreases n - q
    {
      q := q + 1;
    }
  }

  /** A block holds a '/' only where it says one, so two places for it that a
      `*` can reach leave no '/' between the block's ends. */
  lemma NoSlashBetween(tokens: seq<Token>, a: nat, b: nat, text: seq<char>, st: nat, n: nat)
    requires a <= b <= |tokens| && st <= n
    requires Block(tokens, a, b, text, st, false) && Block(tokens, a, b, text, n, false)
    requires forall k :: st <= k < n ==> text[k] != '/'
    ensures forall k :: st + (b - a) <= k < n + (b - a) ==> text[k] != '/'
  {
    forall k | st + (b - a) <= k < n + (b - a)
      ensures text[k] != '/'
    {
      if k >= n {
        SlashNowhere(tokens, a, b, text, st, n, a + (k - n));
      }
    }
  }

  lemma {:induction false} SlashNowhere(tokens: seq<Token>, a: nat, b: nat, text: seq<char>, st: nat, n: nat, i: nat)
    requires a <= i < b <= |tokens| && st < n
    requires Block(tokens, a, b, text, st, false) && Block(tokens, a, b, text, n, false)
    requires forall k :: st <= k < n ==> text[k] != '/'
    ensures text[st + (i - a)] != '/' && text[n + (i - a)] != '/'
    decreases i
  {
    assert TakesOne(tokens[i], text[st + (i - a)], false) && TakesOne(tokens[i], text[n + (i - a)], false);
    if st + (i - a) >= n {
      SlashNowhere(tokens, a, b, text, st, n, i - (n - st));
    }
  }

  /** What the loop has committed to: the tokens since the last wildcard take
      the text since its place, one character each. */
  ghost predicate Aligned(tokens: seq<Token>, text: seq<char>, cross: bool, p: nat, t: nat, star: Resume)
    requires Consistent(tokens, text, p, t, star)
  {
    star.At? ==> p - star.pattern - 1 == t - star.text && Block(tokens, star.pattern + 1, p, text, star.text, cross)
  }

  ghost predicate Goal(tokens: seq<Token>, text: seq<char>, cross: bool, p: nat, t: nat, star: Resume)
    requires Consistent(tokens, text, p, t, star)
  {
    if star.At? then Matches(tokens, star.pattern, text, star.text, cross) else Matches(tokens, p, text, t, cross)
  }

  /** Leaving the last wildcard for a new one gives up no match. */
  lemma Commit(tokens: seq<Token>, text: seq<char>, cross: bool, p: nat, t: nat, star: Resume)
    requires Consistent(tokens, text, p, t, star) && star.At? && Aligned(tokens, text, cross, p, t, star)
    requires cross || Clear(tokens)
    requires p < |tokens| && tokens[p].Wild() && Goal(tokens, text, cross, p, t, star)
    ensures Matches(tokens, p, text, t, cross)
  {
    var At(sp, st) := star;
    var n :| st <= n <= |text| && Run(tokens[sp], text, st, n, cross) && Matches(tokens, sp + 1, text, n, cross);
    Straight(tokens, sp + 1, p, text, n, cross);
    var later := n + (p - sp - 1);
    if cross || tokens[p].AnyDirs? {
      Extend(tokens, p, text, t, later, cross);
    } else if tokens[sp].AnyDirs? {
      Slide(tokens, p, text, t, later);
    } else {
      NoSlashBetween(tokens, sp + 1, p, text, st, n);
      Extend(tokens, p, text, t, later, cross);
    }
  }

  /** With the text used up, what the last wildcard began comes down to the
      tokens that are left. */
  lemma GoalAtEnd(tokens: seq<Token>, text: seq<char>, cross: bool, p: nat, t: nat, star: Resume)
    requires Consistent(tokens, text, p, t, star) && star.At? && Aligned(tokens, text, cross, p, t, star)
    requires Goal(tokens, text, cross, p, t, star) && t == |text|
    ensures Matches(tokens, p, text, |text|, cross)
  {
    var At(sp, st) := star;
    var n :| st <= n <= |text| && Run(tokens[sp], text, st, n, cross) && Matches(tokens, sp + 1, text, n, cross);
    Straight(tokens, sp + 1, p, text, n, cross);
  }

  /** A guess that turns out wrong gives way to the next one, a character on. */
  lemma NextGuess(tokens: seq<Token>, text: seq<char>, cross: bool, p: nat, t: nat, star: Resume)
    requires Consistent(tokens, text, p, t, star) && star.At? && Aligned(tokens, text, cross, p, t, star)
    requires Goal(tokens, text, cross, p, t, star) && t < |text|
    requires p < |tokens| ==> !tokens[p].Wild() && !TakesOne(tokens[p], text[t], cross)
    ensures Swallows(tokens[star.pattern], text[star.text], cross)
    ensures var next := At(star.pattern, star.text + 1);
            && Consistent(tokens, text, star.pattern + 1, star.text + 1, next)
            && Aligned(tokens, text, cross, star.pattern + 1, star.text + 1, next)
            && Goal(tokens, text, cross, star.pattern + 1, star.text + 1, next)
  {
    var At(sp, st) := star;
    var n :| st <= n <= |text| && Run(tokens[sp], text, st, n, cross) && Matches(tokens, sp + 1, text, n, cross);
    Straight(tokens, sp + 1, p, text, n, cross);
    assert n != st;
    assert Run(tokens[sp], text, st + 1, n, cross);
    Extend(tokens, sp, text, st + 1, n, cross);
  }

  lemma {:induction false} LoopComplete(tokens: seq<Token>, text: seq<char>, cross: bool, p: nat, t: nat, star: Resume)
    requires Consistent(tokens, text, p, t, star) && Aligned(tokens, text, cross, p, t, star)
    requires cross || Clear(tokens)
    requires Goal(tokens, text, cross, p, t, star)
    ensures Loop(tokens, text, cross, p, t, star)
    decreases |text| - (if star.At? then star.text else -1), |tokens| - p
  {
    if t < |text| && p < |tokens| && tokens[p].Wild() {
      if star.At? {
        Commit(tokens, text, cross, p, t, star);
      }
      LoopComplete(tokens, text, cross, p + 1, t, At(p, t));
    } else if t < |text| && p < |tokens| && TakesOne(tokens[p], text[t], cross) {
      LoopComplete(tokens, text, cross, p + 1, t + 1, star);
    } else if star.At? {
      var At(sp, st) := star;
      if t == |text| {
        GoalAtEnd(tokens, text, cross, p, t, star);
        WildTail(tokens, p, text, cross);
      } else {
        NextGuess(tokens, text, cross, p, t, star);
        LoopComplete(tokens, text, cross, sp + 1, st + 1, At(sp, st + 1));
      }
    } else if t == |text| {
      WildTail(tokens, p, text, cross);
    }
  }

  /** The default style is exact on every token list and every text. */
  lemma DefaultStyleExact(tokens: seq<Token>, text: seq<char>)
    ensures Glob(tokens, text, true) <==> Means(tokens, text, true)
  {
    if Means(tokens, text, true) {
      LoopComplete(tokens, text, true, 0, 0, Nowhere);
    }
    if Glob(tokens, text, true) {
      GlobSound(tokens, text, true);
    }
  }

  // ---- Exactly where the shell style is exact ----

  /** A class that no character can satisfy: the tokens mean nothing at all. */
  ghost predicate Hopeless(tokens: seq<Token>) {
    exists i :: 0 <= i < |tokens| && !tokens[i].Wild() && forall c :: !TakesOne(tokens[i], c, false)
  }

  lemma {:induction false} HopelessMeansNothing(tokens: seq<Token>, p: nat, text: seq<char>, t: nat, at: nat)
    requires p <= at < |tokens| && t <= |text|
    requires !tokens[at].Wild() && forall c :: !TakesOne(tokens[at], c, false)
    ensures !Matches(tokens, p, text, t, false)
    decreases |tokens| - p
  {
    if p < at && Matches(tokens, p, text, t, false) {
      if tokens[p].Wild() {
        var n :| t <= n <= |text| && Run(tokens[p], text, t, n, false) && Matches(tokens, p + 1, text, n, false);
        HopelessMeansNothing(tokens, p + 1, text, n, at);
      } else {
        HopelessMeansNothing(tokens, p + 1, text, t + 1, at);
      }
    }
  }

  /** A text for `tokens[a..b]`: a character each, and nothing for wildcards. */
  ghost function Word(tokens: seq<Token>, a: nat, b: nat): (word: seq<char>)
    requires a <= b <= |tokens| && !Hopeless(tokens)
    decreases b - a
  {
    if a == b then []
    else if tokens[a].Wild() then Word(tokens, a + 1, b)
    else
      assert exists c :: TakesOne(tokens[a], c, false);
      var c :| TakesOne(tokens[a], c, false);
      [c] + Word(tokens, a + 1, b)
  }

  ghost predicate Holds(text: seq<char>, t: nat, word: seq<char>) {
    t + |word| <= |text| && text[t..t + |word|] == word
  }

  lemma HoldsTail(text: seq<char>, t: nat, word: seq<char>)
    requires word != [] && Holds(text, t, word)
    ensures text[t] == word[0] && Holds(text, t + 1, word[1..])
  {
    assert text[t..t + |word|][0] == text[t];
    assert text[t + 1..t + |word|] == text[t..t + |word|][1..];
  }

  lemma {:induction false} WordMatches(tokens: seq<Token>, a: nat, b: nat, text: seq<char>, t: nat)
    requires a <= b <= |tokens| && !Hopeless(tokens) && Holds(text, t, Word(tokens, a, b))
    requires Matches(tokens, b, text, t + |Word(tokens, a, b)|, false)
    ensures Matches(tokens, a, text, t, false)
    decreases b - a
  {
    if a < b {
      if tokens[a].Wild() {
        WordMatches(tokens, a + 1, b, text, t);
        Extend(tokens, a, text, t, t, false);
      } else {
        var word := Word(tokens, a, b);
        HoldsTail(text, t, word);
        assert word[1..] == Word(tokens, a + 1, b);
        WordMatches(tokens, a + 1, b, text, t + 1);
      }
    }
  }

  /** On such a text the loop goes straight through, never coming back. */
  lemma {:induction false} WordWalks(tokens: seq<Token>, a: nat, b: nat, text: seq<char>, t: nat, star: Resume)
    returns (last: Resume)
    requires a <= b <= |tokens| && !Hopeless(tokens) && Holds(text, t, Word(tokens, a, b))
    requires t + |Word(tokens, a, b)| < |text|
    requires Consistent(tokens, text, a, t, star)
    ensures Consistent(tokens, text, b, t + |Word(tokens, a, b)|, last)
    ensures Loop(tokens, text, false, a, t, star) == Loop(tokens, text, false, b, t + |Word(tokens, a, b)|, last)
    decreases b - a
  {
    if a == b {
      last := star;
    } else if tokens[a].Wild() {
      last := WordWalks(tokens, a + 1, b, text, t, At(a, t));
    } else {
      var word := Word(tokens, a, b);
      HoldsTail(text, t, word);
      assert word[1..] == Word(tokens, a + 1, b);
      last := WordWalks(tokens, a + 1, b, text, t + 1, star);
    }
  }

  /** Text on which the `*` at `j` is stuck at once. */
  function Blocker(tokens: seq<Token>, j: nat): (text: seq<char>)
    requires j < |tokens|
  {
    if j + 2 < |tokens| && tokens[j + 1] == Literal('/') then
      if tokens[j + 2] == Literal('/') then "/a" else "//"
    else
      "/"
  }

  lemma StuckAtBlocker(tokens: seq<Token>, text: seq<char>, j: nat, t: nat, star: Resume)
    requires j < |tokens| && tokens[j].Star? && !Followed(tokens, j)
    requires Consistent(tokens, text, j, t, star)
    requires Holds(text, t, Blocker(tokens, j)) && t + |Blocker(tokens, j)| <= |text|
    requires tokens[|tokens| - 1] == Literal('/') ==> t + 1 < |text|
    ensures !Loop(tokens, text, false, j, t, star)
  {
    HoldsTail(text, t, Blocker(tokens, j));
    assert text[t] == '/';
    if j + 1 < |tokens| && tokens[j + 1] == Literal('/') {
      assert Loop(tokens, text, false, j + 1, t, At(j, t)) == Loop(tokens, text, false, j + 2, t + 1, At(j, t));
      if j + 2 < |tokens| {
        HoldsTail(text, t + 1, Blocker(tokens, j)[1..]);
      }
    }
  }

  /** A text an unclear shell pattern means and the loop refuses. */
  lemma Defeat(tokens: seq<Token>, i: nat, j: nat) returns (text: seq<char>)
    requires !Hopeless(tokens)
    requires i < j < |tokens| && tokens[i].AnyDirs? && tokens[j].Star? && !Followed(tokens, j)
    ensures Means(tokens, text, false) && !Glob(tokens, text, false)
  {
    var before, rest := Word(tokens, 0, i), Word(tokens, i + 1, |tokens|);
    var start, block := Word(tokens, i + 1, j), Blocker(tokens, j);
    text := before + start + block + rest;
    DefeatMeant(tokens, i, text, before, start + block, rest);
    assert text == before + start + (block + rest);
    if tokens[|tokens| - 1] == Literal('/') {
      LastIsHeld(tokens, i + 1, |tokens|);
    }
    DefeatRefused(tokens, i, j, text, block + rest);
  }

  lemma HoldsParts(before: seq<char>, word: seq<char>, after: seq<char>)
    ensures Holds(before + word + after, |before|, word)
  {
  }

  lemma DefeatMeant(tokens: seq<Token>, i: nat, text: seq<char>, before: seq<char>, taken: seq<char>, rest: seq<char>)
    requires !Hopeless(tokens) && i < |tokens| && tokens[i].AnyDirs?
    requires before == Word(tokens, 0, i) && rest == Word(tokens, i + 1, |tokens|)
    requires text == before + taken + rest
    ensures Means(tokens, text, false)
  {
    MeantParts(text, before, taken, rest);
    hide Word, Holds;
    WordMatches(tokens, i + 1, |tokens|, text, |before + taken|);
    Extend(tokens, i, text, |before|, |before + taken|, false);
    WordMatches(tokens, 0, i, text, 0);
  }

  lemma MeantParts(text: seq<char>, before: seq<char>, taken: seq<char>, rest: seq<char>)
    requires text == before + taken + rest
    ensures Holds(text, |before + taken|, rest) && Holds(text, 0, before)
  {
    HoldsParts(before + taken, rest, []);
    assert text == before + taken + rest + [];
    HoldsParts([], before, taken + rest);
    assert text == [] + before + (taken + rest);
  }

  lemma DefeatRefused(tokens: seq<Token>, i: nat, j: nat, text: seq<char>, tail: seq<char>)
    requires !Hopeless(tokens)
    requires i < j < |tokens| && tokens[i].AnyDirs? && tokens[j].Star? && !Followed(tokens, j)
    requires text == Word(tokens, 0, i) + Word(tokens, i + 1, j) + tail
    requires Blocker(tokens, j) <= tail
    requires tokens[|tokens| - 1] == Literal('/') ==> |tail| > 1
    ensures !Glob(tokens, text, false)
  {
    var before, start, block := Word(tokens, 0, i), Word(tokens, i + 1, j), Blocker(tokens, j);
    RefusedParts(text, before, start, block, tail);
    var s0 := WordWalks(tokens, 0, i, text, 0, Nowhere);
    var s1 := WordWalks(tokens, i + 1, j, text, |before|, At(i, |before|));
    hide Word, Blocker, Holds;
    StuckAtBlocker(tokens, text, j, |before + start|, s1);
  }

  lemma RefusedParts(text: seq<char>, before: seq<char>, start: seq<char>, block: seq<char>, tail: seq<char>)
    requires text == before + start + tail && block <= tail
    ensures Holds(text, 0, before) && Holds(text, |before|, start) && Holds(text, |before + start|, block)
  {
    HoldsParts([], before, start + tail);
    assert text == [] + before + (start + tail);
    HoldsParts(before, start, tail);
    HoldsParts(before + start, block, tail[|block|..]);
    assert tail == block + tail[|block|..];
    assert text == before + start + block + tail[|block|..];
  }

  lemma {:induction false} LastIsHeld(tokens: seq<Token>, a: nat, b: nat)
    requires a < b <= |tokens| && !Hopeless(tokens) && !tokens[b - 1].Wild()
    ensures Word(tokens, a, b) != []
    decreases b - a
  {
    if a + 1 < b {
      LastIsHeld(tokens, a + 1, b);
    }
  }

  /** The shell style is exact on every text if and only if the pattern is
      hopeless or clear. */
  lemma ShellStyleExactIff(tokens: seq<Token>)
    ensures (forall text :: Glob(tokens, text, false) == Means(tokens, text, false)) <==>
            Hopeless(tokens) || Clear(tokens)
  {
    forall text
      ensures Glob(tokens, text, false) ==> Means(tokens, text, false)
      ensures Clear(tokens) && Means(tokens, text, false) ==> Glob(tokens, text, false)
      ensures Hopeless(tokens) ==> !Means(tokens, text, false)
    {
      if Glob(tokens, text, false) {
        GlobSound(tokens, text, false);
      }
      if Clear(tokens) && Means(tokens, text, false) {
        LoopComplete(tokens, text, false, 0, 0, Nowhere);
      }
      if Hopeless(tokens) {
        var at :| 0 <= at < |tokens| && !tokens[at].Wild() && forall c :: !TakesOne(tokens[at], c, false);
        HopelessMeansNothing(tokens, 0, text, 0, at);
      }
    }
    if !Hopeless(tokens) && !Clear(tokens) {
      var i, j :| 0 <= i < j < |tokens| && tokens[i].AnyDirs? && tokens[j].Star? && !Followed(tokens, j);
      var text := Defeat(tokens, i, j);
    }
  }
}
