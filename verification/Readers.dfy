/** Escapes undone: XML's, in Snapper's files (crates/backtrack-core/src/snapper.rs),
    and the URL escaping of the Trash (crates/backtrack-core/src/trash.rs). */
module Readers {
  import opened Text

  // ---- Numbers in a radix ----

  function DigitIn(c: char, radix: nat): Option<nat> {
    var n :=
      if '0' <= c <= '9' then c as int - '0' as int
      else if 'a' <= c <= 'z' then c as int - 'a' as int + 10
      else if 'A' <= c <= 'Z' then c as int - 'A' as int + 10
      else radix;
    if n < radix then Some(n) else None
  }

  /** Which character is which digit, in decimal and, in either case, in
      hexadecimal. */
  lemma DigitsAre(c: char, d: nat)
    ensures DigitIn(c, 10) == Some(d) <==> d < 10 && c == "0123456789"[d]
    ensures DigitIn(c, 16) == Some(d) <==> d < 16 && c in {"0123456789abcdef"[d], "0123456789ABCDEF"[d]}
  {
  }

  function ReadDigits(s: string, radix: nat): Option<nat> {
    if s == "" then Some(0)
    else
      match (ReadDigits(s[..|s| - 1], radix), DigitIn(s[|s| - 1], radix))
      case (Some(before), Some(d)) => Some(before * radix + d)
      case _ => None
  }

  /** A number as the standard library reads one: a plus sign in front is taken. */
  function FromRadix(s: string, radix: nat): Option<nat> {
    var digits := if s != "" && s[0] == '+' then s[1..] else s;
    if digits == "" then None else ReadDigits(digits, radix)
  }

  function HexDigit(d: nat): (c: char)
    requires d < 16
    ensures DigitIn(c, 16) == Some(d) && c != '+' && c != ';' && c != 'x'
    ensures d < 10 ==> DigitIn(c, 10) == Some(d)
  {
    if d < 10 then ('0' as int + d) as char else ('a' as int + d - 10) as char
  }

  function DigitsOf(n: nat, radix: nat): (s: string)
    requires 2 <= radix <= 16
    ensures s != ""
  {
    if n < radix then [HexDigit(n)] else DigitsOf(n / radix, radix) + [HexDigit(n % radix)]
  }

  lemma {:induction false} DigitsReadBack(n: nat, radix: nat)
    requires radix == 10 || radix == 16
    ensures ReadDigits(DigitsOf(n, radix), radix) == Some(n)
    ensures forall i :: 0 <= i < |DigitsOf(n, radix)| ==> DigitsOf(n, radix)[i] !in "+;x"
    decreases n
  {
    var s := DigitsOf(n, radix);
    if n < radix {
      assert s[..0] == "";
    } else {
      DigitsReadBack(n / radix, radix);
      assert s[..|s| - 1] == DigitsOf(n / radix, radix) && s[|s| - 1] == HexDigit(n % radix);
    }
  }

  lemma NumberReadsBack(n: nat, radix: nat)
    requires radix == 10 || radix == 16
    ensures FromRadix(DigitsOf(n, radix), radix) == Some(n)
  {
    DigitsReadBack(n, radix);
    assert DigitsOf(n, radix)[0] !in "+;x";
  }

  // ---- XML ----

  function Find(text: string, c: char): (at: Option<nat>)
    ensures at.Some? ==> at.value < |text| && text[at.value] == c && c !in text[..at.value]
    ensures at.None? ==> c !in text
  {
    if text == "" then None
    else if text[0] == c then Some(0)
    else match Find(text[1..], c)
      case None => None
      case Some(n) => assert text[..n + 1] == [text[0]] + text[1..][..n]; Some(n + 1)
  }

  lemma {:induction false} FindAfter(before: string, c: char, after: string)
    requires c !in before
    ensures Find(before + [c] + after, c) == Some(|before|)
  {
    if before != "" {
      FindAfter(before[1..], c, after);
      assert (before + [c] + after)[1..] == before[1..] + [c] + after;
    }
  }

  predicate IsScalar(code: int) {
    0 <= code < 0xD800 || 0xE000 <= code < 0x11_0000
  }

  /** What is between `&` and `;`. */
  function Entity(entity: string): Option<char> {
    if entity == "lt" then Some('<')
    else if entity == "gt" then Some('>')
    else if entity == "amp" then Some('&')
    else if entity == "quot" then Some('"')
    else if entity == "apos" then Some('\'')
    else
      var code :=
        if "#x" <= entity then FromRadix(entity[2..], 16)
        else if "#" <= entity then FromRadix(entity[1..], 10)
        else None;
      if code.Some? && IsScalar(code.value) then Some(code.value as char) else None
  }

  function Prepend(before: string, after: Option<string>): Option<string> {
    match after
    case Some(text) => Some(before + text)
    case None => None
  }

  function Unescaped(text: string): Option<string>
    decreases |text|, 0
  {
    match Find(text, '&')
    case None => Some(text)
    case Some(at) => AfterMark(text[..at], text[at + 1..])
  }

  /** `before`, and what comes after an `&`. */
  function AfterMark(before: string, rest: string): Option<string>
    decreases |rest|, 1
  {
    match Find(rest, ';')
    case None => None
    case Some(end) =>
      match Entity(rest[..end])
      case None => None
      case Some(c) => Prepend(before + [c], Unescaped(rest[end + 1..]))
  }

  lemma AfterMarkLater(more: string, before: string, rest: string)
    ensures AfterMark(more + before, rest) == Prepend(more, AfterMark(before, rest))
  {
    hide Unescaped, Entity;
    match Find(rest, ';') {
      case None =>
      case Some(end) =>
        match Entity(rest[..end]) {
          case None =>
          case Some(c) =>
            PrependTwice(more, before + [c], Unescaped(rest[end + 1..]));
            assert more + before + [c] == more + (before + [c]);
        }
    }
  }

  lemma PrependTwice(a: string, b: string, text: Option<string>)
    ensures Prepend(a, Prepend(b, text)) == Prepend(a + b, text)
  {
    if text.Some? {
      assert a + (b + text.value) == a + b + text.value;
    }
  }

  lemma NothingBefore(text: Option<string>)
    ensures Prepend("", text) == text
  {
    if text.Some? {
      assert "" + text.value == text.value;
    }
  }

  method Unescape(text: string) returns (out: Option<string>)
    ensures out == Unescaped(text)
  {
    hide Entity;
    var sofar, rest := "", text;
    NothingBefore(Unescaped(text));
    while true
      invariant Unescaped(text) == Prepend(sofar, Unescaped(rest))
      decreases |rest|
    {
      match Find(rest, '&') {
        case None =>
          return Some(sofar + rest);
        case Some(at) =>
          var before, tail := rest[..at], rest[at + 1..];
          match Find(tail, ';') {
            case None =>
              return None;
            case Some(end) =>
              match Entity(tail[..end]) {
                case None =>
                  return None;
                case Some(c) =>
                  PrependTwice(sofar, before + [c], Unescaped(tail[end + 1..]));
                  sofar := sofar + (before + [c]);
                  rest := tail[end + 1..];
              }
          }
      }
    }
  }

  /** How one character may be written: as it is, by name, or by its number. */
  datatype Style = Raw | Named | Decimal | Hexadecimal

  predicate MayBe(c: char, style: Style) {
    match style
    case Raw => c != '&'
    case Named => c in "<>&\"'"
    case _ => true
  }

  function NameOf(c: char): string {
    if c == '<' then "lt" else if c == '>' then "gt" else if c == '&' then "amp"
    else if c == '"' then "quot" else "apos"
  }

  function EscapedAs(c: char, style: Style): string {
    match style
    case Raw => [c]
    case Named => "&" + NameOf(c) + ";"
    case Decimal => "&" + ("#" + DigitsOf(c as int, 10)) + ";"
    case Hexadecimal => "&" + ("#x" + DigitsOf(c as int, 16)) + ";"
  }

  function Escape(text: string, styles: seq<Style>): string
    requires |styles| == |text|
  {
    if text == "" then "" else EscapedAs(text[0], styles[0]) + Escape(text[1..], styles[1..])
  }

  lemma NamesNameThem(c: char)
    requires c in "<>&\"'"
    ensures Entity(NameOf(c)) == Some(c) && ';' !in NameOf(c)
  {
  }

  lemma DecimalNames(c: char)
    ensures Entity("#" + DigitsOf(c as int, 10)) == Some(c) && ';' !in "#" + DigitsOf(c as int, 10)
  {
    var digits := DigitsOf(c as int, 10);
    DigitsReadBack(c as int, 10);
    NumberReadsBack(c as int, 10);
    hide FromRadix, DigitsOf;
    var entity := "#" + digits;
    assert entity[1..] == digits && entity[1] == digits[0];
    assert entity[0] == '#' && !("#x" <= entity);
  }

  lemma HexadecimalNames(c: char)
    ensures Entity("#x" + DigitsOf(c as int, 16)) == Some(c) && ';' !in "#x" + DigitsOf(c as int, 16)
  {
    var digits := DigitsOf(c as int, 16);
    DigitsReadBack(c as int, 16);
    NumberReadsBack(c as int, 16);
    hide FromRadix, DigitsOf;
    var entity := "#x" + digits;
    assert entity[2..] == digits && entity[0] == '#';
  }

  /** A reference is read as what it refers to, and reading goes on after it. */
  lemma ReferenceReads(entity: string, c: char, rest: string)
    requires Entity(entity) == Some(c) && ';' !in entity
    ensures Unescaped("&" + entity + ";" + rest) == Prepend([c], Unescaped(rest))
  {
    var text, tail := "&" + entity + ";" + rest, entity + ";" + rest;
    assert text[1..] == tail && Find(text, '&') == Some(0);
    FindAfter(entity, ';', rest);
    assert tail[..|entity|] == entity && tail[|entity| + 1..] == rest;
    assert text[..0] + [c] == [c];
  }

  lemma RawReads(c: char, rest: string)
    requires c != '&'
    ensures Unescaped([c] + rest) == Prepend([c], Unescaped(rest))
  {
    var text := [c] + rest;
    assert text[1..] == rest;
    hide AfterMark;
    match Find(rest, '&') {
      case None =>
      case Some(at) =>
        assert Find(text, '&') == Some(at + 1);
        assert text[at + 2..] == rest[at + 1..] && text[..at + 1] == [c] + rest[..at];
        AfterMarkLater([c], rest[..at], rest[at + 1..]);
    }
  }

  /** Escaped text is read back as what it was, however each character of it
      was escaped. */
  lemma {:induction false} UnescapeUndoes(text: string, styles: seq<Style>)
    requires |styles| == |text| && forall i :: 0 <= i < |text| ==> MayBe(text[i], styles[i])
    ensures Unescaped(Escape(text, styles)) == Some(text)
    decreases |text|
  {
    if text == "" {
    } else {
      var c, rest := text[0], Escape(text[1..], styles[1..]);
      UnescapeUndoes(text[1..], styles[1..]);
      match styles[0] {
        case Raw =>
          RawReads(c, rest);
        case Named =>
          NamesNameThem(c);
          ReferenceReads(NameOf(c), c, rest);
        case Decimal =>
          DecimalNames(c);
          ReferenceReads("#" + DigitsOf(c as int, 10), c, rest);
        case Hexadecimal =>
          HexadecimalNames(c);
          ReferenceReads("#x" + DigitsOf(c as int, 16), c, rest);
      }
      assert text == [c] + text[1..];
    }
  }

  // ---- What an XML text may be written as ----

  function Power(radix: nat, n: nat): nat {
    if n == 0 then 1 else radix * Power(radix, n - 1)
  }

  predicate DigitsIn(s: string, radix: nat) {
    forall i :: 0 <= i < |s| ==> DigitIn(s[i], radix).Some?
  }

  function Worth(c: char, radix: nat): nat {
    match DigitIn(c, radix) case Some(d) => d case None => 0
  }

  /** The number that digits stand for, each by its place. */
  function Positional(s: string, radix: nat): nat {
    if s == "" then 0 else Worth(s[0], radix) * Power(radix, |s| - 1) + Positional(s[1..], radix)
  }

  lemma {:induction false} PositionalLast(s: string, radix: nat)
    requires s != ""
    ensures Positional(s, radix) == Positional(s[..|s| - 1], radix) * radix + Worth(s[|s| - 1], radix)
  {
    if |s| == 1 {
      assert s[1..] == "" && s[..0] == "";
      assert Power(radix, 0) == 1;
    } else {
      var rest, front := s[1..], s[..|s| - 1];
      PositionalLast(rest, radix);
      assert front[1..] == rest[..|rest| - 1] && rest[|rest| - 1] == s[|s| - 1];
      var d, p := Worth(s[0], radix), Power(radix, |s| - 2);
      assert Power(radix, |s| - 1) == radix * p;
      Distributes(d, p, Positional(front[1..], radix), radix);
    }
  }

  lemma Distributes(d: nat, p: nat, rest: nat, radix: nat)
    ensures d * (radix * p) + rest * radix == (d * p + rest) * radix
  {
  }

  /** The standard library's number is the digits' by their places. */
  lemma {:induction false} ReadsByPlace(s: string, radix: nat)
    ensures ReadDigits(s, radix) == if DigitsIn(s, radix) then Some(Positional(s, radix)) else None
    decreases |s|
  {
    if s != "" {
      var front := s[..|s| - 1];
      ReadsByPlace(front, radix);
      assert s == front + [s[|s| - 1]];
      assert DigitIn(s[|s| - 1], radix).Some? && DigitsIn(front, radix) ==> DigitsIn(s, radix);
      if DigitsIn(s, radix) {
        PositionalLast(s, radix);
      }
    }
  }

  /** A number in digits, after a prefix. */
  predicate NumberAfter(entity: string, prefix: string, radix: nat, code: int) {
    prefix <= entity && |prefix| < |entity| && DigitsIn(entity[|prefix|..], radix) &&
    Positional(entity[|prefix|..], radix) == code
  }

  /** What is between `&` and `;` refers to `c`: by one of the five names, or by
      its number in digits (sections 4.1 and 4.6 of XML 1.0). */
  predicate Refers(entity: string, c: char) {
    || (c in "<>&\"'" && entity == NameOf(c))
    || NumberAfter(entity, "#", 10, c as int)
    || NumberAfter(entity, "#x", 16, c as int)
  }

  /** `text` is `out`, each character as it is or as a reference to it. */
  predicate WritesXml(text: string, out: string)
    decreases |text|
  {
    if text == "" then out == ""
    else if out == "" then false
    else if text[0] != '&' then text[0] == out[0] && WritesXml(text[1..], out[1..])
    else
      match Find(text[1..], ';')
      case None => false
      case Some(end) => Refers(text[1..][..end], out[0]) && WritesXml(text[1..][end + 1..], out[1..])
  }

  /** Some reference is a plus sign and digits. */
  predicate PlusReference(text: string)
    decreases |text|
  {
    if text == "" then false
    else if text[0] != '&' then PlusReference(text[1..])
    else
      match Find(text[1..], ';')
      case None => false
      case Some(end) => Plussed(text[1..][..end]) || PlusReference(text[1..][end + 1..])
  }

  predicate Plussed(entity: string) {
    "#+" <= entity || "#x+" <= entity
  }

  lemma NumberIff(entity: string, prefix: string, radix: nat, code: int)
    requires prefix <= entity && !(prefix + "+" <= entity)
    ensures FromRadix(entity[|prefix|..], radix) == Some(code) <==> NumberAfter(entity, prefix, radix, code)
  {
    var digits := entity[|prefix|..];
    assert entity == prefix + digits;
    assert digits != "" && digits[0] == '+' ==> prefix + "+" <= entity;
    ReadsByPlace(digits, radix);
  }

  /** A reference begins as a number's or as a name's, and not as two kinds. */
  lemma Kinds(entity: string)
    ensures entity == "lt" || entity == "gt" || entity == "amp" || entity == "quot" || entity == "apos" ==>
              !("#" <= entity)
    ensures "#x" <= entity ==> "#" <= entity && (|entity| > 1 ==> !DigitsIn(entity[1..], 10))
    ensures Plussed(entity) ==> "#" <= entity
    ensures "#+" <= entity ==> !("#x" <= entity) && !DigitsIn(entity[1..], 10)
    ensures "#x+" <= entity ==> "#x" <= entity && !DigitsIn(entity[2..], 16)
  {
    assert entity == "lt" || entity == "gt" || entity == "amp" || entity == "quot" || entity == "apos" ==>
             entity[0] != '#';
    if "#x" <= entity {
      assert entity[1..][0] == "#x"[1];
    }
    if "#+" <= entity {
      assert entity[1..][0] == "#+"[1] && entity[1] == '+';
    }
    if "#x+" <= entity {
      assert entity[2..][0] == "#x+"[2];
      assert entity[..2] == "#x";
    }
  }

  lemma NamedIff(entity: string, c: char)
    requires !("#" <= entity)
    ensures Entity(entity) == Some(c) <==> c in "<>&\"'" && entity == NameOf(c)
  {
    assert !("#x" <= entity) by {
      Kinds(entity);
    }
  }

  lemma NumberedIff(entity: string, c: char)
    requires "#" <= entity && !Plussed(entity)
    ensures Entity(entity) == Some(c) <==>
            NumberAfter(entity, "#", 10, c as int) || NumberAfter(entity, "#x", 16, c as int)
  {
    Kinds(entity);
    if "#x" <= entity {
      NumberIff(entity, "#x", 16, c as int);
    } else {
      NumberIff(entity, "#", 10, c as int);
    }
    hide FromRadix, Positional, DigitsIn;
  }

  lemma NamesPlain(c: char)
    ensures !("#" <= NameOf(c))
  {
    assert NameOf(c)[0] != '#';
  }

  lemma EntityIff(entity: string, c: char)
    ensures Entity(entity) == Some(c) && !Plussed(entity) <==> Refers(entity, c)
  {
    Kinds(entity);
    NamesPlain(c);
    if !("#" <= entity) {
      NamedIff(entity, c);
    } else if !Plussed(entity) {
      NumberedIff(entity, c);
    }
    hide Entity, Positional, DigitsIn, NameOf;
  }

  lemma AtMark(text: string)
    requires text != "" && text[0] == '&'
    ensures Unescaped(text) ==
            match Find(text[1..], ';')
            case None => None
            case Some(end) =>
              match Entity(text[1..][..end])
              case None => None
              case Some(c) => Prepend([c], Unescaped(text[1..][end + 1..]))
  {
    assert Find(text, '&') == Some(0) && text[..0] == "";
    hide Entity;
    match Find(text[1..], ';') {
      case None =>
      case Some(end) =>
        match Entity(text[1..][..end]) {
          case None =>
          case Some(c) => assert "" + [c] == [c];
        }
    }
  }

  lemma PrependIs(c: char, text: Option<string>, out: string)
    ensures Prepend([c], text) == Some(out) <==> out != "" && out[0] == c && text == Some(out[1..])
  {
    if out != "" {
      assert out == [out[0]] + out[1..];
    }
  }

  /** What the reader gives is what was written, and it reads nothing else, but
      for references of a plus sign and digits, which it takes for numbers. */
  lemma {:induction false} UnescapesIff(text: string, out: string)
    ensures Unescaped(text) == Some(out) && !PlusReference(text) <==> WritesXml(text, out)
    decreases |text|
  {
    if text == "" {
    } else if text[0] != '&' {
      RawReads(text[0], text[1..]);
      assert [text[0]] + text[1..] == text;
      hide Unescaped;
      PrependIs(text[0], Unescaped(text[1..]), out);
      if out != "" {
        UnescapesIff(text[1..], out[1..]);
      }
    } else {
      AtMark(text);
      hide Unescaped, Entity, Refers, Plussed;
      match Find(text[1..], ';') {
        case None =>
        case Some(end) =>
          MarkIff(text[1..][..end], text[1..][end + 1..], out);
          if out != "" {
            UnescapesIff(text[1..][end + 1..], out[1..]);
          }
      }
    }
  }

  lemma MarkIff(entity: string, rest: string, out: string)
    ensures match Entity(entity)
            case None => out != "" ==> !Refers(entity, out[0])
            case Some(c) =>
              && (Prepend([c], Unescaped(rest)) == Some(out) <==>
                  out != "" && out[0] == c && Unescaped(rest) == Some(out[1..]))
              && (out != "" ==> (Refers(entity, out[0]) <==> out[0] == c && !Plussed(entity)))
  {
    hide Unescaped;
    if out != "" {
      EntityIff(entity, out[0]);
    }
    match Entity(entity) {
      case None =>
      case Some(c) => PrependIs(c, Unescaped(rest), out);
    }
    hide Entity, Refers, Plussed;
  }

  // ---- The Trash ----

  const PERCENT: byte := 0x25
  const PLUS: byte := 0x2B

  function HexOf(b: byte): Option<nat> {
    if 0x30 <= b <= 0x39 then Some(b - 0x30)
    else if 0x61 <= b <= 0x66 then Some(b - 0x61 + 10)
    else if 0x41 <= b <= 0x46 then Some(b - 0x41 + 10)
    else None
  }

  /** The bytes that are hexadecimal digits, in either case, are their ASCII codes. */
  lemma HexDigitsAre(b: byte, d: nat)
    ensures HexOf(b) == Some(d) <==>
            d < 16 && b in {"0123456789abcdef"[d] as int, "0123456789ABCDEF"[d] as int}
  {
  }

  /** Two hexadecimal digits. */
  function StrictPair(a: byte, b: byte): Option<byte> {
    match (HexOf(a), HexOf(b))
    case (Some(high), Some(low)) => Some(16 * high + low)
    case _ => None
  }

  /** Two bytes as the standard library reads a hexadecimal number: a plus sign
      and one digit is one too. */
  function Pair(a: byte, b: byte): Option<byte> {
    if a == PLUS then HexOf(b) else StrictPair(a, b)
  }

  function Decoded(value: seq<byte>): Option<seq<byte>> {
    if value == [] then Some([])
    else if value[0] != PERCENT then Before(value[0], Decoded(value[1..]))
    else if |value| < 3 then None
    else
      match Pair(value[1], value[2])
      case None => None
      case Some(b) => Before(b, Decoded(value[3..]))
  }

  function Before(b: byte, rest: Option<seq<byte>>): Option<seq<byte>> {
    match rest
    case Some(bytes) => Some([b] + bytes)
    case None => None
  }

  function After(out: seq<byte>, rest: Option<seq<byte>>): Option<seq<byte>> {
    match rest
    case Some(bytes) => Some(out + bytes)
    case None => None
  }

  lemma AfterOne(out: seq<byte>, b: byte, rest: Option<seq<byte>>)
    ensures After(out, Before(b, rest)) == After(out + [b], rest)
  {
    if rest.Some? {
      assert out + ([b] + rest.value) == out + [b] + rest.value;
    }
  }

  method Decode(value: seq<byte>) returns (bytes: Option<seq<byte>>)
    ensures bytes == Decoded(value)
  {
    var out: seq<byte> := [];
    var i := 0;
    assert value[0..] == value;
    assert Decoded(value).Some? ==> [] + Decoded(value).value == Decoded(value).value;
    while i < |value|
      invariant 0 <= i <= |value| && Decoded(value) == After(out, Decoded(value[i..]))
    {
      var rest := value[i..];
      if value[i] == PERCENT {
        if i + 3 > |value| {
          return None;
        }
        match Pair(value[i + 1], value[i + 2]) {
          case None =>
            return None;
          case Some(b) =>
            assert rest[3..] == value[i + 3..];
            AfterOne(out, b, Decoded(value[i + 3..]));
            out := out + [b];
            i := i + 3;
        }
      } else {
        assert rest[1..] == value[i + 1..];
        AfterOne(out, value[i], Decoded(value[i + 1..]));
        out := out + [value[i]];
        i := i + 1;
      }
    }
    assert value[i..] == [] && out + [] == out;
    return Some(out);
  }

  /** `value` is `bytes`, each as it is or as a percent sign and two
      hexadecimal digits (section 2.4.1 of RFC 2396). */
  predicate Writes(value: seq<byte>, bytes: seq<byte>) {
    if value == [] then bytes == []
    else if bytes == [] then false
    else if value[0] != 0x25 then value[0] == bytes[0] && Writes(value[1..], bytes[1..])
    else |value| >= 3 && StrictPair(value[1], value[2]) == Some(bytes[0]) && Writes(value[3..], bytes[1..])
  }

  /** Some escape is a plus sign and a digit. */
  predicate PlusEscape(value: seq<byte>) {
    if value == [] then false
    else if value[0] != 0x25 then PlusEscape(value[1..])
    else if |value| < 3 then false
    else value[1] == 0x2B || PlusEscape(value[3..])
  }

  /** What the reader gives is what was written, and it reads nothing else, but
      for escapes of a plus sign and a digit, which it takes for numbers. */
  lemma {:induction false} DecodesIff(value: seq<byte>, bytes: seq<byte>)
    ensures Decoded(value) == Some(bytes) && !PlusEscape(value) <==> Writes(value, bytes)
    decreases |value|
  {
    if value != [] && bytes != [] {
      assert bytes == [bytes[0]] + bytes[1..];
      if value[0] != PERCENT {
        DecodesIff(value[1..], bytes[1..]);
      } else if |value| >= 3 {
        DecodesIff(value[3..], bytes[1..]);
      }
    }
  }

  function HexByte(d: nat): (b: byte)
    requires d < 16
    ensures HexOf(b) == Some(d)
  {
    if d < 10 then 0x30 + d else 0x41 + d - 10
  }

  function Encode(bytes: seq<byte>, safe: set<byte>): seq<byte> {
    if bytes == [] then []
    else
      (if bytes[0] in safe then [bytes[0]] else [0x25, HexByte(bytes[0] / 16), HexByte(bytes[0] % 16)]) +
      Encode(bytes[1..], safe)
  }

  /** Whatever is left as it is but the percent sign, what was encoded is read back. */
  lemma {:induction false} DecodeUndoes(bytes: seq<byte>, safe: set<byte>)
    requires 0x25 !in safe
    ensures Decoded(Encode(bytes, safe)) == Some(bytes)
    decreases |bytes|
  {
    if bytes != [] {
      DecodeUndoes(bytes[1..], safe);
      var b, rest := bytes[0], Encode(bytes[1..], safe);
      assert bytes == [b] + bytes[1..];
      if b in safe {
        assert ([b] + rest)[1..] == rest;
      } else {
        var escape := [PERCENT, HexByte(b / 16), HexByte(b % 16)];
        assert (escape + rest)[3..] == rest;
        assert StrictPair(escape[1], escape[2]) == Some(b);
      }
    }
  }

  /** A broken escape that is read as a byte. */
  lemma PlusIsTaken()
    ensures Decoded([PERCENT, PLUS, 0x35]) == Some([5])
    ensures Entity("#+65") == Some('A')
    ensures !exists bytes :: Writes([PERCENT, PLUS, 0x35], bytes)
  {
    assert [PERCENT, PLUS, 0x35][3..] == [] && Pair(PLUS, 0x35) == Some(5) && Decoded([]) == Some([]);
    var five: seq<byte> := [5];
    assert five + [] == five;
    var entity := "#+65";
    assert entity[1..] == "+65" && "+65"[1..] == "65" && entity[1] == '+';
    assert "65"[..1] == "6" && "6"[..0] == "";
    assert ReadDigits("6", 10) == Some(6) && ReadDigits("65", 10) == Some(65);
    assert FromRadix("+65", 10) == Some(65) && FromRadix(entity[1..], 10) == Some(65);
    assert !("#x" <= entity) && "#" <= entity;
    assert |entity| != |"lt"| && |entity| != |"amp"| && entity != "quot" && entity != "apos";
    forall bytes
      ensures !Writes([PERCENT, PLUS, 0x35], bytes)
    {
      assert StrictPair(PLUS, 0x35) == None;
    }
  }
}
