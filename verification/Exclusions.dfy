/** Exclusion patterns as they are written, and what they exclude
    (crates/backtrack-core/src/pattern.rs). */
module Exclusions {
  import opened Text
  import opened Pattern
  import opened Recovery
  import Readers

  // ---- One class ----

  /** The items from `i` on, up to the closing bracket, and where it is; none if
      it is never closed. `first` is whether a bracket here is an item. */
  function ClassItems(chars: string, i: nat, first: bool): (found: Option<(seq<ClassItem>, nat)>)
    ensures found.Some? ==> i < found.value.1 <= |chars|
    decreases |chars| - i
  {
    if i >= |chars| then None
    else if chars[i] == ']' && !first then Some(([], i + 1))
    else if i + 2 < |chars| && chars[i + 1] == '-' && chars[i + 2] != ']' then
      match ClassItems(chars, i + 3, false)
      case None => None
      case Some((items, next)) => Some(([Range(chars[i], chars[i + 2])] + items, next))
    else
      match ClassItems(chars, i + 1, false)
      case None => None
      case Some((items, next)) => Some(([Char(chars[i])] + items, next))
  }

  predicate Negates(chars: string, start: nat) {
    start + 1 < |chars| && (chars[start + 1] == '!' || chars[start + 1] == '^')
  }

  /** The class that starts at a bracket, and where the pattern goes on. */
  function ClassAt(chars: string, start: nat): (found: Option<(Token, nat)>)
    requires start < |chars|
    ensures found.Some? ==> start < found.value.1 <= |chars|
  {
    var negated := Negates(chars, start);
    match ClassItems(chars, if negated then start + 2 else start + 1, true)
    case None => None
    case Some((items, next)) => Some((Class(negated, items), next))
  }

  function ItemsAfter(items: seq<ClassItem>, rest: Option<(seq<ClassItem>, nat)>): Option<(seq<ClassItem>, nat)> {
    match rest
    case None => None
    case Some((more, next)) => Some((items + more, next))
  }

  method ParseClass(chars: string, start: nat) returns (found: Option<(Token, nat)>)
    requires start < |chars|
    ensures found == ClassAt(chars, start)
  {
    var i := start + 1;
    var negated := i < |chars| && (chars[i] == '!' || chars[i] == '^');
    if negated {
      i := i + 1;
    }
    ghost var from := i;
    var items: seq<ClassItem> := [];
    var first := true;
    assert ClassItems(chars, from, true).Some? ==>
             [] + ClassItems(chars, from, true).value.0 == ClassItems(chars, from, true).value.0;
    while i < |chars|
      invariant from <= i && ClassItems(chars, from, true) == ItemsAfter(items, ClassItems(chars, i, first))
      decreases |chars| - i
    {
      var c := chars[i];
      if c == ']' && !first {
        assert items + [] == items;
        return Some((Class(negated, items), i + 1));
      }
      if i + 2 < |chars| && chars[i + 1] == '-' && chars[i + 2] != ']' {
        OneItemAfter(items, Range(c, chars[i + 2]), ClassItems(chars, i + 3, false));
        items := items + [Range(c, chars[i + 2])];
        i := i + 3;
      } else {
        OneItemAfter(items, Char(c), ClassItems(chars, i + 1, false));
        items := items + [Char(c)];
        i := i + 1;
      }
      first := false;
    }
    return None;
  }

  lemma OneItemAfter(items: seq<ClassItem>, item: ClassItem, rest: Option<(seq<ClassItem>, nat)>)
    ensures ItemsAfter(items, ItemsAfter([item], rest)) == ItemsAfter(items + [item], rest)
  {
    if rest.Some? {
      assert items + ([item] + rest.value.0) == items + [item] + rest.value.0;
    }
  }

  // ---- A whole pattern ----

  /** The token at `i`, and where the pattern goes on. */
  function TokenAt(chars: string, i: nat, shell: bool): (found: (Token, nat))
    requires i < |chars|
    ensures i < found.1 <= |chars|
  {
    if chars[i] == '*' && shell && i + 1 < |chars| && chars[i + 1] == '*' then
      (AnyDirs, if i + 2 < |chars| && chars[i + 2] == '/' then i + 3 else i + 2)
    else if chars[i] == '*' then (Star, i + 1)
    else if chars[i] == '?' then (Any, i + 1)
    else if chars[i] == '[' then
      match ClassAt(chars, i)
      case Some(parsed) => parsed
      case None => (Literal('['), i + 1)
    else (Literal(chars[i]), i + 1)
  }

  function TokensFrom(chars: string, i: nat, shell: bool): seq<Token>
    decreases |chars| - i
  {
    if i >= |chars| then []
    else
      var (token, next) := TokenAt(chars, i, shell);
      [token] + TokensFrom(chars, next, shell)
  }

  method Tokenise(chars: string, shell: bool) returns (tokens: seq<Token>)
    ensures tokens == TokensFrom(chars, 0, shell)
  {
    hide *;
    tokens := [];
    var i := 0;
    while i < |chars|
      invariant 0 <= i <= |chars| && TokensFrom(chars, 0, shell) == tokens + TokensFrom(chars, i, shell)
      decreases |chars| - i
    {
      var token, next := NextToken(chars, i, shell);
      TokensNext(chars, i, token, next, shell);
      tokens := tokens + [token];
      i := next;
    }
    NoTokensLeft(chars, i, shell);
  }

  lemma TokensNext(chars: string, i: nat, token: Token, next: nat, shell: bool)
    requires i < |chars| && TokenAt(chars, i, shell) == (token, next)
    ensures i < next <= |chars| && TokensFrom(chars, i, shell) == [token] + TokensFrom(chars, next, shell)
  {
  }

  lemma NoTokensLeft(chars: string, i: nat, shell: bool)
    requires i >= |chars|
    ensures TokensFrom(chars, i, shell) == []
  {
  }

  method NextToken(chars: string, i: nat, shell: bool) returns (token: Token, next: nat)
    requires i < |chars|
    ensures (token, next) == TokenAt(chars, i, shell)
  {
    hide ClassAt;
    token, next := Star, i + 1;
    if chars[i] == '*' && shell && i + 1 < |chars| && chars[i + 1] == '*' {
      token := AnyDirs;
      next := if i + 2 < |chars| && chars[i + 2] == '/' then i + 3 else i + 2;
    } else if chars[i] == '*' {
    } else if chars[i] == '?' {
      token := Any;
    } else if chars[i] == '[' {
      var bracket := ParseClass(chars, i);
      match bracket {
        case Some((parsed, after)) =>
          token, next := parsed, after;
        case None =>
          token := Literal('[');
      }
    } else {
      token := Literal(chars[i]);
    }
  }

  // ---- Writing a pattern down ----

  function StartOf(item: ClassItem): char {
    match item case Char(c) => c case Range(lo, _) => lo
  }

  function PrintItem(item: ClassItem): string {
    match item case Char(c) => [c] case Range(lo, hi) => [lo, '-', hi]
  }

  function PrintItems(items: seq<ClassItem>): string {
    if items == [] then "" else PrintItem(items[0]) + PrintItems(items[1..])
  }

  /** Items that read as themselves: a bracket only first, no range up to one,
      and no hyphen after a character but at the end. */
  predicate ItemsWritable(items: seq<ClassItem>, first: bool)
  {
    items == [] ||
    (&& (first || StartOf(items[0]) != ']')
     && (items[0].Range? ==> items[0].hi != ']')
     && (items[0].Char? && |items| > 1 && StartOf(items[1]) == '-' ==> |items| == 2 && items[1].Char?)
     && ItemsWritable(items[1..], false))
  }

  predicate TokenWritable(token: Token, shell: bool) {
    match token
    case Literal(c) => c !in "*?["
    case Any => true
    case Star => true
    case AnyDirs => shell
    case Class(negated, items) =>
      items != [] && ItemsWritable(items, true) && (!negated ==> StartOf(items[0]) !in "!^")
  }

  predicate Writable(tokens: seq<Token>, shell: bool) {
    && (forall i :: 0 <= i < |tokens| ==> TokenWritable(tokens[i], shell))
    && (shell ==> forall i :: 0 <= i < |tokens| - 1 && tokens[i].Star? ==> !tokens[i + 1].Wild())
  }

  function PrintToken(token: Token): string {
    match token
    case Literal(c) => [c]
    case Any => "?"
    case Star => "*"
    case AnyDirs => "**/"
    case Class(negated, items) => (if negated then "[!" else "[") + PrintItems(items) + "]"
  }

  function PrintTokens(tokens: seq<Token>): string {
    if tokens == [] then "" else PrintToken(tokens[0]) + PrintTokens(tokens[1..])
  }

  /** `part` is what is at `i`. */
  predicate HasAt(chars: string, i: nat, part: string) {
    i + |part| <= |chars| && forall k :: 0 <= k < |part| ==> chars[i + k] == part[k]
  }

  lemma HasParts(chars: string, i: nat, a: string, b: string)
    requires HasAt(chars, i, a + b)
    ensures HasAt(chars, i, a) && HasAt(chars, i + |a|, b)
  {
    forall k | 0 <= k < |a|
      ensures chars[i + k] == a[k]
    {
      assert (a + b)[k] == a[k];
    }
    forall k | 0 <= k < |b|
      ensures chars[i + |a| + k] == b[k]
    {
      assert (a + b)[|a| + k] == b[k];
      assert chars[i + (|a| + k)] == (a + b)[|a| + k];
    }
  }

  lemma At(chars: string, i: nat, part: string, k: nat)
    requires HasAt(chars, i, part) && k < |part|
    ensures i + k < |chars| && chars[i + k] == part[k]
  {
  }

  lemma CharRead(chars: string, i: nat, c: char, first: bool)
    requires i < |chars| && chars[i] == c && (first || c != ']')
    requires i + 2 < |chars| && chars[i + 1] == '-' ==> chars[i + 2] == ']'
    ensures ClassItems(chars, i, first) == ItemsAfter([Char(c)], ClassItems(chars, i + 1, false))
  {
  }

  lemma RangeRead(chars: string, i: nat, lo: char, hi: char, first: bool)
    requires i + 2 < |chars| && chars[i] == lo && chars[i + 1] == '-' && chars[i + 2] == hi
    requires (first || lo != ']') && hi != ']'
    ensures ClassItems(chars, i, first) == ItemsAfter([Range(lo, hi)], ClassItems(chars, i + 3, false))
  {
  }

  /** A hyphen after a character is the last item, and does not make a range. */
  lemma HyphenIsLast(items: seq<ClassItem>, first: bool)
    requires items != [] && ItemsWritable(items, first) && items[0].Char?
    ensures var more := PrintItems(items[1..]) + "]";
            more[0] == '-' ==> more == "-]"
  {
    if |items| > 1 {
      assert PrintItems(items[1..])[0] == StartOf(items[1]);
      assert |items| == 2 ==> items[1..][1..] == [];
    }
  }

  lemma ItemsSplit(items: seq<ClassItem>, first: bool)
    requires items != [] && ItemsWritable(items, first)
    ensures PrintItems(items) == PrintItem(items[0]) + PrintItems(items[1..])
    ensures ItemsWritable(items[1..], false) && (first || StartOf(items[0]) != ']')
    ensures items[0].Range? ==> items[0].hi != ']'
  {
  }

  /** A class's items, up to the bracket that closes it, are read as they are. */
  lemma {:induction false} ItemsRead(chars: string, i: nat, items: seq<ClassItem>, first: bool)
    requires HasAt(chars, i, PrintItems(items) + "]") && ItemsWritable(items, first) && (first ==> items != [])
    ensures ClassItems(chars, i, first) == Some((items, i + |PrintItems(items)| + 1))
    decreases |items|
  {
    hide ClassItems, HasAt, ItemsWritable, PrintItems, PrintItem;
    if items == [] {
      NoItemsRead(chars, i);
    } else {
      ItemsSplit(items, first);
      var item, more := PrintItem(items[0]), PrintItems(items[1..]) + "]";
      PrintsItem(items);
      HasParts(chars, i, item, more);
      ItemsRead(chars, i + |item|, items[1..], false);
      FirstItemRead(chars, i, items, first);
      assert items == [items[0]] + items[1..];
    }
  }

  lemma PrintsItem(items: seq<ClassItem>)
    requires items != []
    ensures PrintItems(items) + "]" == PrintItem(items[0]) + (PrintItems(items[1..]) + "]")
    ensures |PrintItems(items)| == |PrintItem(items[0])| + |PrintItems(items[1..])|
  {
    hide PrintItem;
  }

  lemma NoItemsRead(chars: string, i: nat)
    requires HasAt(chars, i, PrintItems([]) + "]")
    ensures ClassItems(chars, i, false) == Some(([], i + 1)) && PrintItems([]) == ""
  {
    assert (PrintItems([]) + "]")[0] == ']' && chars[i + 0] == ']';
  }

  lemma FirstItemRead(chars: string, i: nat, items: seq<ClassItem>, first: bool)
    requires items != [] && ItemsWritable(items, first)
    requires HasAt(chars, i, PrintItem(items[0])) &&
             HasAt(chars, i + |PrintItem(items[0])|, PrintItems(items[1..]) + "]")
    ensures ClassItems(chars, i, first) == ItemsAfter([items[0]], ClassItems(chars, i + |PrintItem(items[0])|, false))
  {
    ItemsSplit(items, first);
    var more := PrintItems(items[1..]) + "]";
    assert chars[i + 0] == PrintItem(items[0])[0];
    match items[0] {
      case Char(c) =>
        HyphenIsLast(items, first);
        assert chars[i + 1 + 0] == more[0];
        assert more[0] == '-' ==> chars[i + 1 + 1] == more[1];
        hide ClassItems, PrintItems, HasAt, ItemsWritable;
        CharRead(chars, i, c, first);
      case Range(lo, hi) =>
        assert chars[i + 1] == PrintItem(items[0])[1] && chars[i + 2] == PrintItem(items[0])[2];
        hide ClassItems, PrintItems, HasAt, ItemsWritable;
        RangeRead(chars, i, lo, hi, first);
    }
  }

  function Bracket(negated: bool): string {
    if negated then "[!" else "["
  }

  lemma PrintClass(negated: bool, items: seq<ClassItem>)
    ensures PrintToken(Class(negated, items)) == Bracket(negated) + (PrintItems(items) + "]")
  {
  }

  lemma ReadsNegation(chars: string, i: nat, negated: bool, first: char)
    requires HasAt(chars, i, Bracket(negated)) && i + |Bracket(negated)| < |chars|
    requires chars[i + |Bracket(negated)|] == first && (!negated ==> first != '!' && first != '^')
    ensures chars[i] == '[' && Negates(chars, i) == negated
  {
    At(chars, i, Bracket(negated), 0);
    if negated {
      At(chars, i, Bracket(negated), 1);
    }
  }

  lemma FirstPrinted(items: seq<ClassItem>)
    requires items != []
    ensures (PrintItems(items) + "]")[0] == StartOf(items[0])
  {
  }

  lemma BracketParts(chars: string, i: nat, negated: bool, items: seq<ClassItem>)
    requires HasAt(chars, i, PrintToken(Class(negated, items)))
    ensures HasAt(chars, i, Bracket(negated)) && HasAt(chars, i + |Bracket(negated)|, PrintItems(items) + "]")
    ensures |PrintToken(Class(negated, items))| == |Bracket(negated)| + |PrintItems(items)| + 1
  {
    PrintClass(negated, items);
    hide PrintToken, PrintItems, HasAt, Bracket;
    HasParts(chars, i, Bracket(negated), PrintItems(items) + "]");
  }

  lemma BracketReads(chars: string, i: nat, negated: bool, items: seq<ClassItem>)
    requires HasAt(chars, i, Bracket(negated)) && HasAt(chars, i + |Bracket(negated)|, PrintItems(items) + "]")
    requires items != [] && (!negated ==> StartOf(items[0]) !in "!^")
    ensures i < |chars| && chars[i] == '[' && Negates(chars, i) == negated
  {
    var first := StartOf(items[0]);
    assert !negated ==> first != '!' && first != '^';
    FirstPrinted(items);
    At(chars, i + |Bracket(negated)|, PrintItems(items) + "]", 0);
    hide PrintItems, HasAt, Bracket, StartOf, Negates;
    ReadsNegation(chars, i, negated, first);
  }

  lemma ClassReads(chars: string, i: nat, negated: bool, items: seq<ClassItem>)
    requires HasAt(chars, i, PrintToken(Class(negated, items)))
    requires items != [] && ItemsWritable(items, true) && (!negated ==> StartOf(items[0]) !in "!^")
    ensures i < |chars| && chars[i] == '['
    ensures ClassAt(chars, i) == Some((Class(negated, items), i + |PrintToken(Class(negated, items))|))
  {
    hide *;
    BracketParts(chars, i, negated, items);
    BracketReads(chars, i, negated, items);
    ItemsRead(chars, i + |Bracket(negated)|, items, true);
    ClassFound(chars, i, negated, items, i + |Bracket(negated)| + |PrintItems(items)| + 1);
  }

  lemma ClassFound(chars: string, i: nat, negated: bool, items: seq<ClassItem>, next: nat)
    requires i < |chars| && Negates(chars, i) == negated
    requires ClassItems(chars, i + |Bracket(negated)|, true) == Some((items, next))
    ensures ClassAt(chars, i) == Some((Class(negated, items), next))
  {
  }

  lemma TokenReads(chars: string, i: nat, token: Token, shell: bool)
    requires TokenWritable(token, shell) && HasAt(chars, i, PrintToken(token))
    requires shell && token.Star? && i + 1 < |chars| ==> chars[i + 1] != '*'
    ensures i < |chars| && TokenAt(chars, i, shell) == (token, i + |PrintToken(token)|)
  {
    match token {
      case Literal(c) =>
        At(chars, i, [c], 0);
      case Any =>
        At(chars, i, "?", 0);
      case Star =>
        At(chars, i, "*", 0);
      case AnyDirs =>
        At(chars, i, "**/", 0);
        At(chars, i, "**/", 1);
        At(chars, i, "**/", 2);
      case Class(negated, items) =>
        ClassReads(chars, i, negated, items);
        hide ClassAt, PrintItems, HasAt, ItemsWritable;
    }
  }

  lemma FirstStarOnly(token: Token, shell: bool)
    requires TokenWritable(token, shell) && !token.Wild()
    ensures PrintToken(token) != "" && PrintToken(token)[0] != '*'
  {
  }

  lemma WritableRest(tokens: seq<Token>, shell: bool)
    requires tokens != [] && Writable(tokens, shell)
    ensures Writable(tokens[1..], shell) && TokenWritable(tokens[0], shell)
    ensures shell && tokens[0].Star? && |tokens| > 1 ==>
              PrintTokens(tokens[1..]) != "" && PrintTokens(tokens[1..])[0] != '*'
  {
    hide TokenWritable;
    var rest := tokens[1..];
    forall k | 0 <= k < |rest|
      ensures rest[k] == tokens[k + 1] && TokenWritable(rest[k], shell)
    {
    }
    if shell && tokens[0].Star? && |tokens| > 1 {
      assert !tokens[0 + 1].Wild() && TokenWritable(tokens[1], shell);
      FirstStarOnly(tokens[1], shell);
      assert PrintTokens(rest) == PrintToken(rest[0]) + PrintTokens(rest[1..]);
    }
  }

  lemma PrintFirst(tokens: seq<Token>)
    requires tokens != []
    ensures PrintTokens(tokens) == PrintToken(tokens[0]) + PrintTokens(tokens[1..])
    ensures |tokens| == 1 ==> PrintTokens(tokens[1..]) == ""
  {
  }

  /** The first token of what is written is read, and the rest is after it. */
  lemma FirstTokenRead(chars: string, i: nat, tokens: seq<Token>, shell: bool)
    requires tokens != [] && Writable(tokens, shell)
    requires HasAt(chars, i, PrintTokens(tokens)) && i + |PrintTokens(tokens)| == |chars|
    ensures var next := i + |PrintToken(tokens[0])|;
            && HasAt(chars, next, PrintTokens(tokens[1..])) && next + |PrintTokens(tokens[1..])| == |chars|
            && i < |chars| && TokenAt(chars, i, shell) == (tokens[0], next)
  {
    hide *;
    var text, rest := PrintToken(tokens[0]), PrintTokens(tokens[1..]);
    PrintFirst(tokens);
    HasParts(chars, i, text, rest);
    WritableRest(tokens, shell);
    StarEnds(tokens[0], text);
    if rest != "" {
      At(chars, i + |text|, rest, 0);
    }
    TokenReads(chars, i, tokens[0], shell);
  }

  /** A pattern written down is read as the pattern it was. */
  lemma {:induction false} PatternReadsBack(chars: string, i: nat, tokens: seq<Token>, shell: bool)
    requires Writable(tokens, shell) && HasAt(chars, i, PrintTokens(tokens)) && i + |PrintTokens(tokens)| == |chars|
    ensures TokensFrom(chars, i, shell) == tokens
    decreases |tokens|
  {
    if tokens == [] {
      NothingPrinted();
    } else {
      hide *;
      var next := i + |PrintToken(tokens[0])|;
      FirstTokenRead(chars, i, tokens, shell);
      WritableRest(tokens, shell);
      PatternReadsBack(chars, next, tokens[1..], shell);
      TokensNext(chars, i, tokens[0], next, shell);
      assert tokens == [tokens[0]] + tokens[1..];
    }
  }

  lemma StarEnds(token: Token, text: string)
    requires text == PrintToken(token)
    ensures token.Star? ==> |text| == 1
  {
  }

  lemma NothingPrinted()
    ensures PrintTokens([]) == ""
  {
  }

  /** Writing tokens down and splitting them up again gives them back. */
  lemma WrittenIsRead(tokens: seq<Token>, shell: bool)
    requires Writable(tokens, shell)
    ensures TokensFrom(PrintTokens(tokens), 0, shell) == tokens
  {
    PatternReadsBack(PrintTokens(tokens), 0, tokens, shell);
  }

  // ---- Every text, spelled out ----

  function ItemsFrom(chars: string, i: nat): nat {
    if i + 1 < |chars| && chars[i + 1] in "!^" then i + 2 else i + 1
  }

  /** The class at bracket `i` ends at `n`: at the first closing bracket after the
      one character that is an item whatever it is. */
  predicate Closes(chars: string, i: nat, n: nat) {
    && ItemsFrom(chars, i) + 1 < n <= |chars| && chars[n - 1] == ']'
    && forall k :: ItemsFrom(chars, i) + 1 <= k < n - 1 ==> chars[k] != ']'
  }

  /** What stands from `i` up to `n` in a pattern's text, for each token. */
  predicate SpelledAs(chars: string, i: nat, n: nat, token: Token, shell: bool)
    requires i < n <= |chars|
  {
    match token
    case Any => n == i + 1 && chars[i] == '?'
    case Star => n == i + 1 && chars[i] == '*' && !(shell && n < |chars| && chars[n] == '*')
    case AnyDirs =>
      && shell && i + 2 <= |chars| && chars[i] == chars[i + 1] == '*'
      && n == if i + 2 < |chars| && chars[i + 2] == '/' then i + 3 else i + 2
    case Literal(c) =>
      && n == i + 1 && chars[i] == c && c !in "*?"
      && (c == '[' ==> forall end :: i < end <= |chars| ==> !Closes(chars, i, end))
    case Class(negated, items) =>
      && chars[i] == '[' && Closes(chars, i, n) && (negated <==> chars[i + 1] in "!^")
      && PrintItems(items) == chars[ItemsFrom(chars, i)..n - 1] && ItemsWritable(items, true)
  }

  ghost predicate Spelled(chars: string, i: nat, tokens: seq<Token>, shell: bool)
    decreases |tokens|
  {
    if tokens == [] then i == |chars|
    else exists n :: i < n <= |chars| && SpelledAs(chars, i, n, tokens[0], shell) &&
                     Spelled(chars, n, tokens[1..], shell)
  }

  /** What is read of a class's items from `i` on: those up to the first bracket
      that may close it, or nothing if there is none. */
  predicate ItemsAre(chars: string, i: nat, first: bool, found: Option<(seq<ClassItem>, nat)>) {
    var from := if first then i + 1 else i;
    match found
    case None => forall k :: from <= k < |chars| ==> chars[k] != ']'
    case Some((items, next)) =>
      && from < next <= |chars| && chars[next - 1] == ']' && (forall k :: from <= k < next - 1 ==> chars[k] != ']')
      && PrintItems(items) == chars[i..next - 1] && ItemsWritable(items, first)
  }

  lemma OneMoreItem(chars: string, i: nat, n: nat, first: bool, item: ClassItem, rest: Option<(seq<ClassItem>, nat)>)
    requires i < n <= |chars| && ItemsAre(chars, n, false, rest) && PrintItem(item) == chars[i..n]
    requires (first || chars[i] != ']') && forall k :: i < k < n ==> chars[k] != ']'
    requires rest.Some? ==> ItemsWritable([item] + rest.value.0, first)
    ensures ItemsAre(chars, i, first, ItemsAfter([item], rest))
  {
    hide ItemsWritable, PrintItem;
    if rest.Some? {
      var (items, next) := rest.value;
      assert ([item] + items)[1..] == items;
      assert chars[i..next - 1] == chars[i..n] + chars[n..next - 1];
    }
  }

  lemma {:induction false} ItemsSpelled(chars: string, i: nat, first: bool)
    ensures ItemsAre(chars, i, first, ClassItems(chars, i, first))
    decreases |chars| - i
  {
    if i < |chars| && !(chars[i] == ']' && !first) {
      if i + 2 < |chars| && chars[i + 1] == '-' && chars[i + 2] != ']' {
        ItemsSpelled(chars, i + 3, false);
        RangeSpelled(chars, i, first);
      } else {
        ItemsSpelled(chars, i + 1, false);
        CharSpelled(chars, i, first);
      }
    }
  }

  lemma RangeSpelled(chars: string, i: nat, first: bool)
    requires i + 2 < |chars| && chars[i + 1] == '-' && chars[i + 2] != ']' && (first || chars[i] != ']')
    requires ItemsAre(chars, i + 3, false, ClassItems(chars, i + 3, false))
    ensures ItemsAre(chars, i, first, ClassItems(chars, i, first))
  {
    var item, rest := Range(chars[i], chars[i + 2]), ClassItems(chars, i + 3, false);
    RangeRead(chars, i, chars[i], chars[i + 2], first);
    assert chars[i..i + 3] == PrintItem(item);
    hide ClassItems;
    if rest.Some? {
      assert ([item] + rest.value.0)[1..] == rest.value.0;
    }
    OneMoreItem(chars, i, i + 3, first, item, rest);
  }

  lemma CharSpelled(chars: string, i: nat, first: bool)
    requires i < |chars| && (first || chars[i] != ']')
    requires i + 2 < |chars| && chars[i + 1] == '-' ==> chars[i + 2] == ']'
    requires ItemsAre(chars, i + 1, false, ClassItems(chars, i + 1, false))
    ensures ItemsAre(chars, i, first, ClassItems(chars, i, first))
  {
    var item, rest := Char(chars[i]), ClassItems(chars, i + 1, false);
    CharRead(chars, i, chars[i], first);
    assert chars[i..i + 1] == PrintItem(item);
    if rest.Some? {
      HyphenCloses(chars, i + 1);
      assert ([item] + rest.value.0)[1..] == rest.value.0;
    }
    hide ClassItems;
    OneMoreItem(chars, i, i + 1, first, item, rest);
  }

  /** A hyphen read as an item of its own is the last. */
  lemma HyphenCloses(chars: string, i: nat)
    requires ClassItems(chars, i, false).Some?
    ensures var items := ClassItems(chars, i, false).value.0;
            && (items != [] ==> StartOf(items[0]) == chars[i])
            && (i + 1 < |chars| && chars[i + 1] == ']' && chars[i] != ']' ==> items == [Char(chars[i])])
  {
  }

  lemma ClassSpelled(chars: string, i: nat, n: nat, negated: bool, items: seq<ClassItem>)
    requires i < n <= |chars| && chars[i] == '['
    ensures ClassAt(chars, i) == Some((Class(negated, items), n)) <==>
            SpelledAs(chars, i, n, Class(negated, items), false)
    ensures ClassAt(chars, i) == None ==> !Closes(chars, i, n)
  {
    var from := ItemsFrom(chars, i);
    assert Negates(chars, i) <==> i + 1 < |chars| && chars[i + 1] in "!^";
    ItemsSpelled(chars, from, true);
    if SpelledAs(chars, i, n, Class(negated, items), false) {
      var text := PrintItems(items) + "]";
      assert text == chars[from..n];
      assert HasAt(chars, from, text);
      ItemsRead(chars, from, items, true);
    }
  }

  lemma TokenSpelled(chars: string, i: nat, n: nat, token: Token, shell: bool)
    requires i < n <= |chars|
    ensures TokenAt(chars, i, shell) == (token, n) <==> SpelledAs(chars, i, n, token, shell)
  {
    if chars[i] == '[' {
      hide ClassAt, Closes, PrintItems, ItemsWritable;
      match ClassAt(chars, i) {
        case None =>
          forall end | i < end <= |chars|
            ensures !Closes(chars, i, end)
          {
            ClassSpelled(chars, i, end, false, []);
          }
          if token.Class? {
            ClassSpelled(chars, i, n, token.negated, token.items);
          }
        case Some((parsed, next)) =>
          ClassSpelled(chars, i, next, parsed.negated, parsed.items);
          if token.Class? {
            ClassSpelled(chars, i, n, token.negated, token.items);
          }
      }
    } else {
      hide ClassAt, Closes, PrintItems, ItemsWritable;
    }
  }

  /** The tokens a pattern's text is split up into are the one list it spells:
      every text spells one, brackets that nothing closes included. */
  lemma {:induction false} TokensSpelled(chars: string, i: nat, tokens: seq<Token>, shell: bool)
    requires i <= |chars|
    ensures TokensFrom(chars, i, shell) == tokens <==> Spelled(chars, i, tokens, shell)
    decreases |chars| - i
  {
    hide TokenAt, SpelledAs;
    if i < |chars| {
      var (token, next) := TokenAt(chars, i, shell);
      TokensNext(chars, i, token, next, shell);
      if tokens != [] {
        TokensSpelled(chars, next, tokens[1..], shell);
        forall n | i < n <= |chars|
          ensures (tokens[0], n) == (token, next) <==> SpelledAs(chars, i, n, tokens[0], shell)
        {
          TokenSpelled(chars, i, n, tokens[0], shell);
        }
        assert tokens == [tokens[0]] + tokens[1..];
      }
    } else {
      NoTokensLeft(chars, i, shell);
    }
  }

  // ---- A set of patterns ----

  datatype Compiled =
    | Fnmatch(tokens: seq<Token>)
    | Shell(tokens: seq<Token>)
    | PathPrefix(prefix: string)
    | PathFull(path: string)

  /** What is left of a text once the slashes in front of it are gone. */
  function WithoutSlashes(text: string): (bare: string)
    ensures bare == "" || bare[0] != '/'
    ensures |bare| <= |text| && bare == text[|text| - |bare|..]
    ensures forall i :: 0 <= i < |text| - |bare| ==> text[i] == '/'
  {
    if text != "" && text[0] == '/' then WithoutSlashes(text[1..]) else text
  }

  /** And once those after it are. */
  function WithoutLastSlashes(text: string): (bare: string)
    ensures bare <= text && (bare == "" || bare[|bare| - 1] != '/')
    ensures forall i :: |bare| <= i < |text| ==> text[i] == '/'
  {
    if text != "" && text[|text| - 1] == '/' then WithoutLastSlashes(text[..|text| - 1]) else text
  }

  predicate IsStyle(style: string) {
    style == "fm" || style == "sh" || style == "pp" || style == "pf" || style == "re"
  }

  /** A pattern's style and what comes after it: the default one, unless what is
      before a colon is one of Borg's. */
  function StyleOf(raw: string): (string, string) {
    match Readers.Find(raw, ':')
    case Some(n) => if IsStyle(raw[..n]) then (raw[..n], raw[n + 1..]) else ("fm", raw)
    case None => ("fm", raw)
  }

  function Parsed(raw: string): Option<Compiled> {
    ParsedAs(StyleOf(raw).0, WithoutSlashes(StyleOf(raw).1))
  }

  function ParsedAs(style: string, body: string): Option<Compiled> {
    if style == "fm" then Some(Fnmatch(TokensFrom(body, 0, false)))
    else if style == "sh" then Some(Shell(TokensFrom(body, 0, true)))
    else if style == "pp" then Some(PathPrefix(WithoutLastSlashes(body)))
    else if style == "pf" then Some(PathFull(body))
    else None
  }

  /** What a compiled pattern excludes, of paths with no slash in front. */
  ghost predicate ExcludedBy(pattern: Compiled, path: string) {
    match pattern
    case Fnmatch(tokens) => Means(tokens, path, true)
    case Shell(tokens) => Glob(tokens, path, false)
    case PathPrefix(prefix) => path == prefix || prefix + "/" <= path
    case PathFull(full) => path == full
  }

  /** The patterns that can be compiled, and those that cannot, as they come. */
  function Supported(patterns: seq<string>): seq<Compiled> {
    if patterns == [] then []
    else
      var n := |patterns| - 1;
      Supported(patterns[..n]) + if Parsed(patterns[n]).Some? then [Parsed(patterns[n]).value] else []
  }

  function Unsupported(patterns: seq<string>): seq<string> {
    if patterns == [] then []
    else
      var n := |patterns| - 1;
      Unsupported(patterns[..n]) + if Parsed(patterns[n]).Some? then [] else [patterns[n]]
  }

  lemma {:induction false} SupportedHolds(patterns: seq<string>, pattern: Compiled, raw: string)
    ensures pattern in Supported(patterns) <==> exists i :: 0 <= i < |patterns| && Parsed(patterns[i]) == Some(pattern)
    ensures raw in Unsupported(patterns) <==> raw in patterns && Parsed(raw).None?
  {
    hide Parsed;
    if patterns != [] {
      var n := |patterns| - 1;
      SupportedHolds(patterns[..n], pattern, raw);
      assert patterns == patterns[..n] + [patterns[n]];
    }
  }

  /** What a pattern asks to be left out, by what it starts with: a path of no
      slash in front is inside its folder, is its very path, or is meant by its
      tokens; a regular expression asks nothing. */
  ghost predicate LeavesOut(raw: string, path: string) {
    if "re:" <= raw then false
    else if "pp:" <= raw then
      var folder := WithoutLastSlashes(WithoutSlashes(raw[3..]));
      if folder == "" then path == "" else Within(path, folder)
    else if "pf:" <= raw then path == WithoutSlashes(raw[3..])
    else if "sh:" <= raw then Glob(TokensFrom(WithoutSlashes(raw[3..]), 0, true), path, false)
    else if "fm:" <= raw then Means(TokensFrom(WithoutSlashes(raw[3..]), 0, false), path, true)
    else Means(TokensFrom(WithoutSlashes(raw), 0, false), path, true)
  }

  /** A style is told from the first two characters and a colon. */
  lemma StyleIs(raw: string)
    ensures StyleOf(raw) ==
            if "fm:" <= raw then ("fm", raw[3..])
            else if "sh:" <= raw then ("sh", raw[3..])
            else if "pp:" <= raw then ("pp", raw[3..])
            else if "pf:" <= raw then ("pf", raw[3..])
            else if "re:" <= raw then ("re", raw[3..])
            else ("fm", raw)
  {
    StyleStarts(raw, "fm");
    StyleStarts(raw, "sh");
    StyleStarts(raw, "pp");
    StyleStarts(raw, "pf");
    StyleStarts(raw, "re");
    assert "fm" + ":" == "fm:" && "sh" + ":" == "sh:" && "pp" + ":" == "pp:" && "pf" + ":" == "pf:";
    assert "re" + ":" == "re:";
  }

  lemma StyleStarts(raw: string, style: string)
    requires |style| == 2 && ':' !in style
    ensures style + ":" <= raw <==> (Readers.Find(raw, ':').Some? && raw[..Readers.Find(raw, ':').value] == style)
    ensures style + ":" <= raw ==> Readers.Find(raw, ':') == Some(2)
  {
    if style + ":" <= raw {
      assert raw[2] == (style + ":")[2] && raw[..2] == style;
      assert raw[0] == style[0] && raw[1] == style[1];
    }
    match Readers.Find(raw, ':')
    case None =>
    case Some(n) =>
      if raw[..n] == style {
        assert raw[..3] == raw[..2] + [raw[2]];
      }
  }

  lemma StylesDiffer()
    ensures "fm" != "sh" && "fm" != "pp" && "fm" != "pf" && "fm" != "re" && "sh" != "pp" && "sh" != "pf" && "sh" != "re"
    ensures "pp" != "pf" && "pp" != "re" && "pf" != "re"
  {
    assert "fm"[0] == 'f' && "sh"[0] == 's' && "pp"[0] == 'p' && "re"[0] == 'r' && "pf"[1] == 'f' && "pp"[1] == 'p';
  }

  /** A pattern is one that can be compiled unless it is a regular expression; and
      what it comes to excludes what the pattern asks to be left out. */
  lemma ParsedIs(raw: string, path: string)
    requires path == "" || path[0] != '/'
    ensures Parsed(raw).None? <==> "re:" <= raw
    ensures Parsed(raw).Some? ==> (ExcludedBy(Parsed(raw).value, path) <==> LeavesOut(raw, path))
  {
    hide StyleOf, ParsedAs, WithoutSlashes, WithoutLastSlashes, TokensFrom, Means, Glob, Within;
    StyleIs(raw);
    StyleParsed();
    OneStyle(raw, "re:", "pp:");
    OneStyle(raw, "re:", "pf:");
    OneStyle(raw, "re:", "sh:");
    OneStyle(raw, "re:", "fm:");
    OneStyle(raw, "pp:", "pf:");
    OneStyle(raw, "pp:", "sh:");
    OneStyle(raw, "pp:", "fm:");
    OneStyle(raw, "pf:", "sh:");
    OneStyle(raw, "pf:", "fm:");
    OneStyle(raw, "sh:", "fm:");
    if "pp:" <= raw {
      PrefixExcludes(WithoutLastSlashes(WithoutSlashes(raw[3..])), path);
    }
  }

  lemma OneStyle(raw: string, a: string, b: string)
    requires |a| == 3 && |b| == 3 && (a[0] != b[0] || a[1] != b[1])
    ensures !(a <= raw && b <= raw)
  {
  }

  lemma StyleParsed()
    ensures forall body :: ParsedAs("fm", body) == Some(Fnmatch(TokensFrom(body, 0, false)))
    ensures forall body :: ParsedAs("sh", body) == Some(Shell(TokensFrom(body, 0, true)))
    ensures forall body :: ParsedAs("pp", body) == Some(PathPrefix(WithoutLastSlashes(body)))
    ensures forall body :: ParsedAs("pf", body) == Some(PathFull(body))
    ensures forall body :: ParsedAs("re", body) == None
  {
    hide TokensFrom, WithoutLastSlashes;
    StylesDiffer();
  }

  lemma PrefixExcludes(folder: string, path: string)
    requires path == "" || path[0] != '/'
    ensures ExcludedBy(PathPrefix(folder), path) <==> if folder == "" then path == "" else Within(path, folder)
  {
    if folder != "" {
      PrefixIsWithinIff(folder);
    }
  }

  method Compile(patterns: seq<string>) returns (compiled: seq<Compiled>, unsupported: seq<string>)
    ensures compiled == Supported(patterns) && unsupported == Unsupported(patterns)
    ensures forall pattern :: pattern in compiled <==>
            exists i :: 0 <= i < |patterns| && Parsed(patterns[i]) == Some(pattern)
    ensures forall raw :: raw in unsupported <==> raw in patterns && "re:" <= raw
    ensures forall path: string :: path == "" || path[0] != '/' ==>
              ((exists i :: 0 <= i < |compiled| && ExcludedBy(compiled[i], path)) <==>
               (exists i :: 0 <= i < |patterns| && LeavesOut(patterns[i], path)))
  {
    hide Parsed, LeavesOut, ExcludedBy;
    compiled, unsupported := [], [];
    var i := 0;
    while i < |patterns|
      invariant 0 <= i <= |patterns|
      invariant compiled == Supported(patterns[..i]) && unsupported == Unsupported(patterns[..i])
    {
      assert patterns[..i + 1][..i] == patterns[..i];
      match Parsed(patterns[i]) {
        case Some(pattern) =>
          compiled := compiled + [pattern];
        case None =>
          unsupported := unsupported + [patterns[i]];
      }
      i := i + 1;
    }
    assert patterns[..|patterns|] == patterns;
    forall pattern
      ensures pattern in Supported(patterns) <==>
              exists k :: 0 <= k < |patterns| && Parsed(patterns[k]) == Some(pattern)
    {
      SupportedHolds(patterns, pattern, "");
    }
    forall raw
      ensures raw in Unsupported(patterns) <==> raw in patterns && "re:" <= raw
    {
      SupportedHolds(patterns, PathFull(""), raw);
      ParsedIs(raw, "");
    }
    forall path: string | path == "" || path[0] != '/'
      ensures (exists k :: 0 <= k < |compiled| && ExcludedBy(compiled[k], path)) <==>
              (exists k :: 0 <= k < |patterns| && LeavesOut(patterns[k], path))
    {
      CompiledLeavesOut(patterns, path);
    }
  }

  /** The patterns compiled exclude between them what those given ask. */
  lemma CompiledLeavesOut(patterns: seq<string>, path: string)
    requires path == "" || path[0] != '/'
    ensures var compiled := Supported(patterns);
            (exists i :: 0 <= i < |compiled| && ExcludedBy(compiled[i], path)) <==>
            (exists i :: 0 <= i < |patterns| && LeavesOut(patterns[i], path))
  {
    hide Parsed, LeavesOut, ExcludedBy;
    var compiled := Supported(patterns);
    if i :| 0 <= i < |compiled| && ExcludedBy(compiled[i], path) {
      assert compiled[i] in compiled;
      SupportedHolds(patterns, compiled[i], "");
      var k :| 0 <= k < |patterns| && Parsed(patterns[k]) == Some(compiled[i]);
      ParsedIs(patterns[k], path);
    }
    if k :| 0 <= k < |patterns| && LeavesOut(patterns[k], path) {
      ParsedIs(patterns[k], path);
      NotARegex(patterns[k], path);
      SupportedHolds(patterns, Parsed(patterns[k]).value, "");
      var i :| 0 <= i < |compiled| && compiled[i] == Parsed(patterns[k]).value;
    }
  }

  lemma NotARegex(raw: string, path: string)
    ensures LeavesOut(raw, path) ==> !("re:" <= raw)
  {
  }

  /** Whether any pattern excludes `path`: in the default style, whether its
      tokens mean it. */
  method Excludes(compiled: seq<Compiled>, path: string) returns (excluded: bool)
    ensures excluded <==> exists i :: 0 <= i < |compiled| && ExcludedBy(compiled[i], WithoutSlashes(path))
  {
    hide *;
    var bare := WithoutSlashes(path);
    var i := 0;
    while i < |compiled|
      invariant 0 <= i <= |compiled| && forall k :: 0 <= k < i ==> !ExcludedBy(compiled[k], bare)
    {
      var hit := MatchesOne(compiled[i], bare);
      if hit {
        return true;
      }
      i := i + 1;
    }
    return false;
  }

  method MatchesOne(pattern: Compiled, path: string) returns (hit: bool)
    ensures hit <==> ExcludedBy(pattern, path)
  {
    hide Means, Glob;
    match pattern {
      case Fnmatch(tokens) =>
        ghost var rounds;
        hit, rounds := GlobMatch(tokens, path, true);
        DefaultStyleExact(tokens, path);
      case Shell(tokens) =>
        ghost var rounds;
        hit, rounds := GlobMatch(tokens, path, false);
      case PathPrefix(prefix) =>
        PrefixThenSlash(path, prefix);
        hit := path == prefix || (|path| > |prefix| && prefix <= path && path[|prefix|] == '/');
      case PathFull(full) =>
        hit := path == full;
    }
  }

  lemma PrefixThenSlash(path: string, prefix: string)
    ensures prefix + "/" <= path <==> |path| > |prefix| && prefix <= path && path[|prefix|] == '/'
  {
    if |path| > |prefix| && prefix <= path && path[|prefix|] == '/' {
      assert path[..|prefix| + 1] == prefix + "/";
    }
    if prefix + "/" <= path {
      assert path[..|prefix| + 1] == prefix + "/";
      assert path[..|prefix|] == prefix;
    }
  }

  /** A path-prefix pattern excludes what is at or inside its folder, unless the
      folder is the root: that one excludes nothing inside it. */
  lemma PrefixIsWithinIff(prefix: string)
    ensures (forall path :: (path == "" || path[0] != '/') ==>
               (ExcludedBy(PathPrefix(prefix), path) <==> Within(path, prefix))) <==>
            prefix != ""
  {
    if prefix == "" {
      var path := "a";
      assert path[0] != '/' && Within(path, prefix);
      assert !("" + "/" <= path);
      assert !ExcludedBy(PathPrefix(prefix), path);
    }
  }

  /** The tokens of the default style never stand for whole folders. */
  lemma {:induction false} DefaultStyleHasNoDirs(chars: string, i: nat)
    ensures AnyDirs !in TokensFrom(chars, i, false)
    decreases |chars| - i
  {
    if i < |chars| {
      DefaultStyleHasNoDirs(chars, TokenAt(chars, i, false).1);
    }
  }
}
