/** What Snapper says of a snapshot, and the name it is catalogued under
    (crates/backtrack-core/src/snapper.rs). */
module SnapperInfo {
  import opened Text
  import opened Readers
  import opened Recovery
  import Calendar
  import Stamps

  // ---- Finding text in text ----

  function FindText(text: string, pattern: string): (at: Option<nat>)
    ensures at.Some? ==> at.value + |pattern| <= |text|
  {
    if pattern <= text then Some(0)
    else if text == "" then None
    else match FindText(text[1..], pattern)
      case None => None
      case Some(n) => Some(n + 1)
  }

  /** No `pattern` starts in `chunk`, with `rest` after it. */
  ghost predicate NoneIn(chunk: string, rest: string, pattern: string) {
    forall i :: 0 <= i < |chunk| ==> !(pattern <= (chunk + rest)[i..])
  }

  lemma {:induction false} FindSkips(chunk: string, rest: string, pattern: string)
    requires NoneIn(chunk, rest, pattern)
    ensures FindText(chunk + rest, pattern) ==
            match FindText(rest, pattern) case None => None case Some(n) => Some(|chunk| + n)
    decreases |chunk|
  {
    var text := chunk + rest;
    if chunk == "" {
      assert text == rest;
    } else {
      assert text[0..] == text;
      assert text[1..] == chunk[1..] + rest;
      forall i | 0 <= i < |chunk[1..]|
        ensures !(pattern <= (chunk[1..] + rest)[i..])
      {
        assert (chunk[1..] + rest)[i..] == text[i + 1..];
      }
      FindSkips(chunk[1..], rest, pattern);
    }
  }

  /** A tag is not found where there is no `<`. */
  lemma PlainHasNone(plain: string, rest: string, pattern: string)
    requires '<' !in plain && pattern != "" && pattern[0] == '<'
    ensures NoneIn(plain, rest, pattern)
  {
    forall i | 0 <= i < |plain|
      ensures !(pattern <= (plain + rest)[i..])
    {
      assert (plain + rest)[i..][0] == plain[i];
    }
  }

  lemma NoneInBoth(a: string, b: string, rest: string, pattern: string)
    requires NoneIn(a, b + rest, pattern) && NoneIn(b, rest, pattern)
    ensures NoneIn(a + b, rest, pattern)
  {
    forall i | 0 <= i < |a + b|
      ensures !(pattern <= (a + b + rest)[i..])
    {
      if i < |a| {
        assert a + b + rest == a + (b + rest);
      } else {
        assert (a + b + rest)[i..] == (b + rest)[i - |a|..];
      }
    }
  }

  // ---- Elements ----

  function Opening(name: string): string {
    "<" + name + ">"
  }

  function Closing(name: string): string {
    "</" + name + ">"
  }

  /** What is between the first `<name>` and the first `</name>` after it. */
  function Element(text: string, name: string): Option<string> {
    match FindText(text, Opening(name))
    case None => None
    case Some(at) =>
      var rest := text[at + |Opening(name)|..];
      match FindText(rest, Closing(name))
      case None => None
      case Some(n) => Some(rest[..n])
  }

  datatype Child = Child(name: string, value: string)

  function FirstWord(text: string): string {
    UpToSpace(TrimStart(text))
  }

  function UpToSpace(text: string): string {
    if text == "" || IsSpace(text[0]) then "" else [text[0]] + UpToSpace(text[1..])
  }

  function Trim(text: string): string {
    TrimStart(TrimEnd(text))
  }

  /** The elements directly inside `body`. */
  function Children(body: string): seq<Child>
    decreases |body|, 1
  {
    match Find(body, '<')
    case None => []
    case Some(open) => AfterOpen(body[open + 1..])
  }

  function AfterOpen(rest: string): seq<Child>
    decreases |rest|, 2
  {
    if "!--" <= rest then
      match FindText(rest[3..], "-->")
      case None => []
      case Some(n) => Children(rest[3..][n + 3..])
    else
      match Find(rest, '>')
      case None => []
      case Some(n) => Tagged(rest[..n], rest[n + 1..])
  }

  function Tagged(tag: string, rest: string): seq<Child>
    decreases |rest|, 2
  {
    if tag != "" && tag[|tag| - 1] == '/' then [Child(Trim(tag[..|tag| - 1]), "")] + Children(rest)
    else if tag != "" && tag[0] in "/?!" then Children(rest)
    else
      var name := FirstWord(tag);
      if name == "" then []
      else
        match FindText(rest, Closing(name))
        case None => []
        case Some(n) => [Child(name, rest[..n])] + Children(rest[n + |Closing(name)|..])
  }

  // ---- A file as Snapper writes it ----

  /** A field: `short` if it is written as one tag, there being nothing in it. */
  datatype Field = Field(name: string, value: string, short: bool)

  predicate IsTag(name: string) {
    name != "" && name[0] !in "/?!" && forall i :: 0 <= i < |name| ==> name[i] !in "<>/" && !IsSpace(name[i])
  }

  predicate Writable(f: Field) {
    IsTag(f.name) && '<' !in f.value && (f.short ==> f.value == "")
  }

  function PrintField(f: Field): string {
    if f.short then "  <" + f.name + "/>\n" else "  " + Opening(f.name) + f.value + Closing(f.name) + "\n"
  }

  function PrintFields(fields: seq<Field>): string {
    if fields == [] then "" else PrintField(fields[0]) + PrintFields(fields[1..])
  }

  function Print(fields: seq<Field>): string {
    "<?xml version=\"1.0\"?>\n" + (Opening("snapshot") + ("\n" + PrintFields(fields) + (Closing("snapshot") + "\n")))
  }

  function Read(fields: seq<Field>): seq<Child> {
    if fields == [] then [] else [Child(fields[0].name, fields[0].value)] + Read(fields[1..])
  }

  lemma {:induction false} TagWord(name: string)
    requires forall i :: 0 <= i < |name| ==> !IsSpace(name[i])
    ensures UpToSpace(name) == name
  {
    if name != "" {
      TagWord(name[1..]);
    }
  }

  lemma TagTrims(name: string)
    requires IsTag(name)
    ensures Trim(name) == name && FirstWord(name) == name
  {
    assert TrimEnd(name) == name && TrimStart(name) == name;
    TagWord(name);
  }

  /** An element's first tag, read. */
  lemma TagReads(tag: string, rest: string)
    requires tag != "" && '<' !in tag && '>' !in tag && tag[0] != '!'
    ensures Children("  <" + tag + ">" + rest) == Tagged(tag, rest)
  {
    var body, after := "  <" + tag + ">" + rest, tag + ">" + rest;
    FindAfter("  ", '<', after);
    assert body == "  " + "<" + after;
    assert body[3..] == after;
    assert after[0] == tag[0] && !("!--" <= after);
    FindAfter(tag, '>', rest);
    assert after[..|tag|] == tag && after[|tag| + 1..] == rest;
  }

  lemma OpenReads(rest: string)
    ensures Children("<" + rest) == AfterOpen(rest)
  {
    hide AfterOpen;
    FindAfter("", '<', rest);
    assert "" + "<" + rest == "<" + rest;
    assert ("<" + rest)[1..] == rest;
  }

  lemma CommentEnds(tag: string, after: string, n: nat, rest: string)
    requires "!--" <= tag && tag[3..] == after && FindText(after, "-->") == Some(n)
    requires n + 3 <= |after| && after[n + 3..] == rest
    ensures AfterOpen(tag) == Children(rest)
  {
    hide Children, FindText, Find, Tagged;
  }

  lemma CommentParts(text: string, rest: string)
    ensures var after := text + ("-->" + rest);
            && "!--" <= "!--" + after && ("!--" + after)[3..] == after
            && |text| + 3 <= |after| && after[|text| + 3..] == rest
            && "<!--" + text + "-->" + rest == "<" + ("!--" + after)
  {
  }

  /** A comment is passed over, whatever is in it. */
  lemma CommentReads(text: string, rest: string)
    requires NoneIn(text, "-->" + rest, "-->")
    ensures Children("<!--" + text + "-->" + rest) == Children(rest)
  {
    hide *;
    var after := text + ("-->" + rest);
    FoundFirst("-->" + rest, "-->");
    FindSkips(text, "-->" + rest, "-->");
    CommentParts(text, rest);
    CommentEnds("!--" + after, after, |text|, rest);
    OpenReads("!--" + after);
  }

  lemma TagEnds(tag: string, rest: string)
    requires tag != "" && !("!--" <= tag + ">") && '>' !in tag
    ensures AfterOpen(tag + ">" + rest) == Tagged(tag, rest)
  {
    hide Children, Tagged, FindText;
    var after := tag + ">" + rest;
    FindAfter(tag, '>', rest);
    hide Find;
    assert after[..|tag|] == tag && after[|tag| + 1..] == rest;
  }

  /** So are a declaration and a closing tag that closes nothing. */
  lemma OthersPassedOver(tag: string, rest: string)
    requires tag != "" && tag[0] in "/?!" && !("!--" <= tag + ">") && '>' !in tag && tag[|tag| - 1] != '/'
    ensures Children("<" + tag + ">" + rest) == Children(rest)
  {
    hide Children, AfterOpen, FindText, FirstWord, Trim;
    TagEnds(tag, rest);
    OpenReads(tag + ">" + rest);
    assert "<" + tag + ">" + rest == "<" + (tag + ">" + rest);
  }

  lemma ClosesFirst(value: string, name: string, rest: string)
    requires '<' !in value
    ensures FindText(value + Closing(name) + rest, Closing(name)) == Some(|value|)
  {
    PlainHasNone(value, Closing(name) + rest, Closing(name));
    FindSkips(value, Closing(name) + rest, Closing(name));
    assert value + Closing(name) + rest == value + (Closing(name) + rest);
    assert Closing(name) <= Closing(name) + rest;
  }

  /** A line break before the next element changes nothing. */
  lemma BreakReads(rest: string)
    ensures Children("\n" + rest) == Children(rest)
  {
    hide AfterOpen;
    var text := "\n" + rest;
    assert text[1..] == rest;
    match Find(rest, '<') {
      case None =>
      case Some(n) =>
        assert text[n + 2..] == rest[n + 1..];
    }
  }

  lemma PrintedShort(name: string, rest: string)
    ensures "  <" + name + "/>\n" + rest == "  <" + (name + "/") + ">" + ("\n" + rest)
  {
  }

  lemma PrintedLong(name: string, value: string, rest: string)
    ensures "  " + Opening(name) + value + Closing(name) + "\n" + rest
         == "  <" + name + ">" + (value + Closing(name) + ("\n" + rest))
  {
    hide Closing;
    assert "  " + Opening(name) == "  <" + name + ">";
  }

  lemma ShortReads(name: string, rest: string)
    requires IsTag(name)
    ensures Children("  <" + (name + "/") + ">" + rest) == [Child(name, "")] + Children(rest)
  {
    var tag := name + "/";
    TagReads(tag, rest);
    TagTrims(name);
    assert tag[|tag| - 1] == '/' && tag[..|tag| - 1] == name;
    hide Children, Trim, FirstWord, IsTag;
  }

  lemma LongReads(name: string, value: string, rest: string)
    requires IsTag(name) && '<' !in value
    ensures Children("  <" + name + ">" + (value + Closing(name) + rest)) == [Child(name, value)] + Children(rest)
  {
    var after := value + Closing(name) + rest;
    TagReads(name, after);
    TagTrims(name);
    ClosesFirst(value, name, rest);
    assert name[|name| - 1] != '/' && name[0] !in "/?!";
    hide Children, Trim, FirstWord, IsTag, FindText, Closing;
    assert after[..|value|] == value;
    assert after[|value| + |Closing(name)|..] == rest;
  }

  lemma FieldReads(f: Field, rest: string)
    requires Writable(f)
    ensures Children(PrintField(f) + rest) == [Child(f.name, f.value)] + Children(rest)
  {
    BreakReads(rest);
    hide Children, Closing, Opening;
    if f.short {
      ShortReads(f.name, "\n" + rest);
      PrintedShort(f.name, rest);
    } else {
      LongReads(f.name, f.value, "\n" + rest);
      PrintedLong(f.name, f.value, rest);
    }
  }

  /** The elements of a printed file are its fields, in order. */
  lemma {:induction false} FieldsRead(fields: seq<Field>)
    requires forall i :: 0 <= i < |fields| ==> Writable(fields[i])
    ensures Children(PrintFields(fields)) == Read(fields)
  {
    if fields != [] {
      FieldReads(fields[0], PrintFields(fields[1..]));
      FieldsRead(fields[1..]);
    }
  }

  // ---- The element that holds them ----

  lemma OpenHasNone(next: string, pattern: string)
    requires |pattern| > 1 && (next == "" || next[0] != pattern[1])
    ensures NoneIn("<", next, pattern)
  {
    var text := "<" + next;
    assert text[0..] == text;
    assert next != "" ==> text[1] == next[0];
  }

  lemma CloseHasNone(name: string, rest: string, other: string)
    requires '>' !in name && '>' !in other && name != other
    ensures NoneIn("<", "/" + name + ">" + rest, Closing(other))
  {
    var text := "<" + ("/" + name + ">" + rest);
    assert text[0..] == text;
    assert text == "</" + (name + ">" + rest);
    if Closing(other) <= text {
      var more := text[|Closing(other)|..];
      assert text == "</" + (other + ">" + more);
      assert text[2..] == name + ">" + rest && text[2..] == other + ">" + more;
      SameUpTo(name, other, '>', rest, more);
    }
  }

  lemma SameUpTo(a: string, b: string, c: char, x: string, y: string)
    requires c !in a && c !in b && a + [c] + x == b + [c] + y
    ensures a == b
  {
    FindAfter(a, c, x);
    FindAfter(b, c, y);
    assert a == (a + [c] + x)[..|a|] && b == (b + [c] + y)[..|b|];
  }

  lemma FieldHasNone(f: Field, rest: string, other: string)
    requires Writable(f) && IsTag(other) && f.name != other
    ensures NoneIn(PrintField(f), rest, Closing(other))
  {
    var closing := Closing(other);
    if f.short {
      var tail := f.name + "/>\n";
      OpenHasNone(tail + rest, closing);
      PlainHasNone(tail, rest, closing);
      NoneInBoth("<", tail, rest, closing);
      PlainHasNone("  ", "<" + tail + rest, closing);
      NoneInBoth("  ", "<" + tail, rest, closing);
      assert PrintField(f) == "  " + ("<" + tail);
    } else {
      var last := "/" + f.name + ">" + "\n";
      var middle := f.name + ">" + f.value;
      assert last + rest == "/" + f.name + ">" + ("\n" + rest);
      CloseHasNone(f.name, "\n" + rest, other);
      PlainHasNone(last, rest, closing);
      NoneInBoth("<", last, rest, closing);
      PlainHasNone(middle, "<" + last + rest, closing);
      NoneInBoth(middle, "<" + last, rest, closing);
      OpenHasNone(middle + ("<" + last) + rest, closing);
      NoneInBoth("<", middle + ("<" + last), rest, closing);
      PlainHasNone("  ", "<" + (middle + ("<" + last)) + rest, closing);
      NoneInBoth("  ", "<" + (middle + ("<" + last)), rest, closing);
      assert PrintField(f) == "  " + ("<" + (middle + ("<" + last)));
    }
  }

  lemma {:induction false} FieldsHaveNone(fields: seq<Field>, rest: string, other: string)
    requires IsTag(other) && forall i :: 0 <= i < |fields| ==> Writable(fields[i]) && fields[i].name != other
    ensures NoneIn(PrintFields(fields), rest, Closing(other))
  {
    if fields != [] {
      var more := PrintFields(fields[1..]);
      FieldsHaveNone(fields[1..], rest, other);
      FieldHasNone(fields[0], more + rest, other);
      NoneInBoth(PrintField(fields[0]), more, rest, Closing(other));
    }
  }

  lemma SnapshotIsTag()
    ensures IsTag("snapshot")
  {
  }

  lemma OpeningFound(tail: string)
    ensures FindText("<?xml version=\"1.0\"?>\n" + (Opening("snapshot") + tail), Opening("snapshot")) ==
            Some(|"<?xml version=\"1.0\"?>\n"|)
  {
    var head := "?xml version=\"1.0\"?>\n";
    var rest := Opening("snapshot") + tail;
    OpenHasNone(head + rest, Opening("snapshot"));
    PlainHasNone(head, rest, Opening("snapshot"));
    NoneInBoth("<", head, rest, Opening("snapshot"));
    assert "<?xml version=\"1.0\"?>\n" == "<" + head;
    FindSkips("<" + head, rest, Opening("snapshot"));
  }

  lemma FoundFirst(text: string, pattern: string)
    requires pattern <= text
    ensures FindText(text, pattern) == Some(0)
  {
  }

  lemma ElementIs(text: string, name: string, at: nat, rest: string, n: nat)
    requires FindText(text, Opening(name)) == Some(at) && text[at + |Opening(name)|..] == rest
    requires FindText(rest, Closing(name)) == Some(n)
    ensures Element(text, name) == Some(rest[..n])
  {
    hide FindText;
  }

  /** Between two texts that hold it nowhere else, a tag is found where it is. */
  lemma ElementBetween(head: string, body: string, last: string, name: string)
    requires FindText(head + (Opening(name) + (body + last)), Opening(name)) == Some(|head|)
    requires NoneIn(body, last, Closing(name)) && Closing(name) <= last
    ensures Element(head + (Opening(name) + (body + last)), name) == Some(body)
  {
    hide *;
    var text, rest := head + (Opening(name) + (body + last)), body + last;
    DropTwo(head, Opening(name), rest);
    FindSkips(body, last, Closing(name));
    FoundFirst(last, Closing(name));
    ElementIs(text, name, |head|, rest, |body|);
    assert rest[..|body|] == body;
  }

  lemma DropTwo(a: string, b: string, c: string)
    ensures (a + (b + c))[|a| + |b|..] == c
  {
  }

  lemma BodyHasNone(fields: seq<Field>, last: string)
    requires forall i :: 0 <= i < |fields| ==> Writable(fields[i]) && fields[i].name != "snapshot"
    ensures NoneIn("\n" + PrintFields(fields), last, Closing("snapshot"))
  {
    SnapshotIsTag();
    FieldsHaveNone(fields, last, "snapshot");
    PlainHasNone("\n", PrintFields(fields) + last, Closing("snapshot"));
    hide NoneIn, PrintFields;
    NoneInBoth("\n", PrintFields(fields), last, Closing("snapshot"));
  }

  /** The body of a printed file is found, whatever its fields hold. */
  lemma BodyFound(fields: seq<Field>)
    requires forall i :: 0 <= i < |fields| ==> Writable(fields[i]) && fields[i].name != "snapshot"
    ensures Element(Print(fields), "snapshot") == Some("\n" + PrintFields(fields))
  {
    hide NoneIn, PrintFields, Element, Writable;
    var head, last := "<?xml version=\"1.0\"?>\n", Closing("snapshot") + "\n";
    OpeningFound("\n" + PrintFields(fields) + last);
    BodyHasNone(fields, last);
    ElementBetween(head, "\n" + PrintFields(fields), last, "snapshot");
  }

  // ---- What the file says ----

  datatype Type = Single | Pre | Post

  datatype Info = Info(number: nat, kind: Type, date: int, description: string)

  function FirstNamed(children: seq<Child>, name: string): Option<string> {
    if children == [] then None
    else if children[0].name == name then Some(children[0].value)
    else FirstNamed(children[1..], name)
  }

  function ParseNumber(text: string): Option<nat> {
    var n := FromRadix(Trim(text), 10);
    if n.Some? && n.value > U64_MAX then None else n
  }

  function ParseType(text: string): Option<Type> {
    var word := Trim(text);
    if word == "single" then Some(Single)
    else if word == "pre" then Some(Pre)
    else if word == "post" then Some(Post)
    else None
  }

  /** The first space a `T`. */
  function WithT(text: string): string {
    match Find(text, ' ')
    case None => text
    case Some(n) => text[..n] + "T" + text[n + 1..]
  }

  function ParseDate(text: string): Option<int> {
    match Stamps.ParseBorgMtime(WithT(Trim(text)))
    case None => None
    case Some(micros) => Some(Calendar.Truncated(micros, 1_000_000))
  }

  function UnescapedField(children: seq<Child>, name: string): Option<string> {
    match FirstNamed(children, name)
    case None => None
    case Some(value) => Unescaped(value)
  }

  function FromFields(children: seq<Child>): Option<Info> {
    match (UnescapedField(children, "num"), UnescapedField(children, "type"), UnescapedField(children, "date"))
    case (Some(num), Some(kind), Some(date)) =>
      var description :=
        if FirstNamed(children, "description").None? then Some("") else UnescapedField(children, "description");
      (match (ParseNumber(num), ParseType(kind), ParseDate(date), description)
       case (Some(n), Some(k), Some(d), Some(text)) => Some(Info(n, k, d, text))
       case _ => None)
    case _ => None
  }

  function ParseInfo(text: string): Option<Info> {
    match Element(text, "snapshot")
    case None => None
    case Some(body) => FromFields(Children(body))
  }

  /** A printed file is read as its fields are. */
  lemma PrintedIsRead(fields: seq<Field>)
    requires forall i :: 0 <= i < |fields| ==> Writable(fields[i]) && fields[i].name != "snapshot"
    ensures ParseInfo(Print(fields)) == FromFields(Read(fields))
  {
    BodyFound(fields);
    FieldsRead(fields);
    BreakReads(PrintFields(fields));
  }

  // ---- A snapshot, written and read ----

  function TypeName(kind: Type): string {
    match kind case Single => "single" case Pre => "pre" case Post => "post"
  }

  /** `YYYY-MM-DD hh:mm:ss`, in UTC. */
  function SnapperStamp(epoch: int): string {
    WithSpace(Stamps.UtcStamp(epoch))
  }

  function WithSpace(stamp: string): string {
    match Find(stamp, 'T')
    case None => stamp
    case Some(n) => stamp[..n] + " " + stamp[n + 1..]
  }

  predicate Plain(text: string) {
    forall i :: 0 <= i < |text| ==> IsDigit(text[i]) || text[i] in "-:"
  }

  lemma PlainIs(text: string)
    requires Plain(text)
    ensures ' ' !in text && 'T' !in text && '&' !in text && '<' !in text
    ensures text != "" ==> !IsSpace(text[0]) && !IsSpace(text[|text| - 1])
  {
  }

  lemma JoinedPlain(a: int, b: int, c: int, width: nat, mark: char)
    requires mark in "-:"
    ensures var text := Stamps.Joined(Pad(a, width), Pad(b, 2), Pad(c, 2), mark);
            Plain(text) && text != ""
  {
    PadPlain(a, width);
    PadPlain(b, 2);
    PadPlain(c, 2);
    hide Pad;
  }

  lemma PadPlain(n: int, width: nat)
    ensures Plain(Pad(n, width))
  {
    hide PadNat;
    if n < 0 {
      PadReads(-n, if width == 0 then 0 else width - 1);
    } else {
      PadReads(n, width);
    }
  }

  /** A date and a time, apart by a space, read as apart by a `T`. */
  lemma SpaceForT(date: string, time: string)
    requires Plain(date) && Plain(time) && date != "" && time != ""
    ensures WithSpace(date + "T" + time) == date + " " + time
    ensures WithT(Trim(date + " " + time)) == date + "T" + time
    ensures '&' !in date + " " + time && '<' !in date + " " + time
  {
    PlainIs(date);
    PlainIs(time);
    hide IsSpace;
    var spaced, stamp := date + " " + time, date + "T" + time;
    FindAfter(date, 'T', time);
    FindAfter(date, ' ', time);
    assert spaced[|spaced| - 1] == time[|time| - 1] && spaced[0] == date[0];
    assert TrimEnd(spaced) == spaced && TrimStart(spaced) == spaced;
    hide TrimEnd, TrimStart, Find;
    assert stamp[..|date|] == date && stamp[|date| + 1..] == time;
    assert spaced[..|date|] == date && spaced[|date| + 1..] == time;
  }

  lemma DateReads(epoch: int)
    ensures ParseDate(SnapperStamp(epoch)) ==
            if Calendar.CivilFromDays(epoch / 86400).year >= 0 then Some(epoch) else None
    ensures '&' !in SnapperStamp(epoch) && '<' !in SnapperStamp(epoch)
  {
    hide *;
    var date, clock := Stamps.StampParts(epoch);
    JoinedPlain(date.year, date.month, date.day, 4, '-');
    JoinedPlain(clock.hour, clock.minute, clock.second, 2, ':');
    var d := Stamps.Joined(Pad(date.year, 4), Pad(date.month, 2), Pad(date.day, 2), '-');
    var t := Stamps.Joined(Pad(clock.hour, 2), Pad(clock.minute, 2), Pad(clock.second, 2), ':');
    SpaceForT(d, t);
    Stamps.StampReadsBackIff(epoch);
    DateIs(epoch, d + " " + t);
  }

  lemma DateIs(epoch: int, text: string)
    requires WithSpace(Stamps.UtcStamp(epoch)) == text && WithT(Trim(text)) == Stamps.UtcStamp(epoch)
    requires '&' !in text && '<' !in text
    requires Stamps.ParseBorgMtime(Stamps.UtcStamp(epoch)) ==
             if Calendar.CivilFromDays(epoch / 86400).year >= 0 then Some(epoch * 1_000_000) else None
    ensures ParseDate(SnapperStamp(epoch)) ==
            if Calendar.CivilFromDays(epoch / 86400).year >= 0 then Some(epoch) else None
    ensures '&' !in SnapperStamp(epoch) && '<' !in SnapperStamp(epoch)
  {
    hide Stamps.ParseBorgMtime, Stamps.UtcStamp, Calendar.CivilFromDays, WithSpace, WithT, Trim;
    assert Calendar.Truncated(epoch * 1_000_000, 1_000_000) == epoch by {
      if epoch < 0 {
        assert -(epoch * 1_000_000) == -epoch * 1_000_000;
      }
    }
  }

  lemma {:induction false} EscapeHidesOpen(text: string, styles: seq<Style>)
    requires |styles| == |text| && forall i :: 0 <= i < |text| && text[i] == '<' ==> styles[i] != Raw
    ensures '<' !in Escape(text, styles)
    decreases |text|
  {
    if text != "" {
      EscapeHidesOpen(text[1..], styles[1..]);
      OneHidesOpen(text[0], styles[0]);
    }
  }

  lemma OneHidesOpen(c: char, style: Style)
    requires c == '<' ==> style != Raw
    ensures '<' !in EscapedAs(c, style)
  {
    DigitsPlain(c as int, 10);
    DigitsPlain(c as int, 16);
  }

  lemma {:induction false} DigitsPlain(n: nat, radix: nat)
    requires radix == 10 || radix == 16
    ensures '<' !in DigitsOf(n, radix) && '&' !in DigitsOf(n, radix)
    ensures forall i :: 0 <= i < |DigitsOf(n, radix)| ==> !IsSpace(DigitsOf(n, radix)[i])
    decreases n
  {
    assert forall d :: 0 <= d < 16 ==> !IsSpace(HexDigit(d)) && HexDigit(d) != '<' && HexDigit(d) != '&';
    if n >= radix {
      DigitsPlain(n / radix, radix);
    }
  }

  /** A snapshot's file, its description escaped one way or another, and what
      fields there are after it. */
  function Fields(number: nat, kind: Type, epoch: int, description: string, styles: seq<Style>,
                  more: seq<Field>): seq<Field>
    requires |styles| == |description|
  {
    [Field("type", TypeName(kind), false), Field("num", DigitsOf(number, 10), false),
     Field("date", SnapperStamp(epoch), false), Field("description", Escape(description, styles), false)] + more
  }

  lemma NumberReads(number: nat)
    ensures Unescaped(DigitsOf(number, 10)) == Some(DigitsOf(number, 10)) && '<' !in DigitsOf(number, 10)
    ensures ParseNumber(DigitsOf(number, 10)) == if number <= U64_MAX then Some(number) else None
  {
    DigitsPlain(number, 10);
    NumberReadsBack(number, 10);
    hide FromRadix, DigitsOf;
    var digits := DigitsOf(number, 10);
    assert TrimEnd(digits) == digits && TrimStart(digits) == digits;
  }

  lemma TypeReads(kind: Type)
    ensures Unescaped(TypeName(kind)) == Some(TypeName(kind)) && '<' !in TypeName(kind)
    ensures ParseType(TypeName(kind)) == Some(kind)
  {
    var word := TypeName(kind);
    assert TrimEnd(word) == word && TrimStart(word) == word;
    assert '&' !in word;
  }

  lemma FieldNames()
    ensures IsTag("type") && IsTag("num") && IsTag("date") && IsTag("description")
  {
  }

  /** Snapper's file is read as the snapshot it was written for, whatever its
      description says, if and only if its number is one of 64 bits and its
      date is not before year 0. */
  lemma SnapshotReadsBackIff(number: nat, kind: Type, epoch: int, description: string, styles: seq<Style>,
                             more: seq<Field>)
    requires |styles| == |description|
    requires forall i :: 0 <= i < |description| ==>
               MayBe(description[i], styles[i]) && (description[i] == '<' ==> styles[i] != Raw)
    requires forall i :: 0 <= i < |more| ==> Writable(more[i]) && more[i].name != "snapshot"
    ensures ParseInfo(Print(Fields(number, kind, epoch, description, styles, more))) ==
            if number <= 18446744073709551615 && Calendar.CivilFromDays(epoch / 86400).year >= 0
            then Some(Info(number, kind, epoch, description)) else None
  {
    assert U64_MAX == 18446744073709551615;
    hide *;
    var fields := Fields(number, kind, epoch, description, styles, more);
    NumberReads(number);
    TypeReads(kind);
    DateReads(epoch);
    EscapeHidesOpen(description, styles);
    UnescapeUndoes(description, styles);
    FieldNames();
    FieldsWritable(number, kind, epoch, description, styles, more);
    PrintedIsRead(fields);
    FieldsAre(number, kind, epoch, description, styles, more);
  }

  lemma FieldsWritable(number: nat, kind: Type, epoch: int, description: string, styles: seq<Style>, more: seq<Field>)
    requires |styles| == |description|
    requires '<' !in TypeName(kind) && '<' !in DigitsOf(number, 10) && '<' !in SnapperStamp(epoch) &&
             '<' !in Escape(description, styles)
    requires IsTag("type") && IsTag("num") && IsTag("date") && IsTag("description")
    requires forall i :: 0 <= i < |more| ==> Writable(more[i]) && more[i].name != "snapshot"
    ensures var fields := Fields(number, kind, epoch, description, styles, more);
            forall i :: 0 <= i < |fields| ==> Writable(fields[i]) && fields[i].name != "snapshot"
  {
    hide TypeName, DigitsOf, SnapperStamp, Escape, IsTag;
  }

  lemma FieldsAre(number: nat, kind: Type, epoch: int, description: string, styles: seq<Style>, more: seq<Field>)
    requires |styles| == |description|
    requires Unescaped(TypeName(kind)) == Some(TypeName(kind)) && ParseType(TypeName(kind)) == Some(kind)
    requires Unescaped(DigitsOf(number, 10)) == Some(DigitsOf(number, 10))
    requires ParseNumber(DigitsOf(number, 10)) == if number <= U64_MAX then Some(number) else None
    requires '&' !in SnapperStamp(epoch)
    requires ParseDate(SnapperStamp(epoch)) ==
             if Calendar.CivilFromDays(epoch / 86400).year >= 0 then Some(epoch) else None
    requires Unescaped(Escape(description, styles)) == Some(description)
    ensures FromFields(Read(Fields(number, kind, epoch, description, styles, more))) ==
            if number <= U64_MAX && Calendar.CivilFromDays(epoch / 86400).year >= 0
            then Some(Info(number, kind, epoch, description)) else None
  {
    var fields := Fields(number, kind, epoch, description, styles, more);
    assert Unescaped(SnapperStamp(epoch)) == Some(SnapperStamp(epoch));
    Lookups(TypeName(kind), DigitsOf(number, 10), SnapperStamp(epoch), Escape(description, styles), more);
    hide TypeName, DigitsOf, SnapperStamp, Escape, Unescaped, ParseType, ParseNumber, ParseDate;
    hide Calendar.CivilFromDays, Read, FirstNamed;
  }

  lemma ReadFirst(f: Field, rest: seq<Field>, name: string)
    ensures Read([f] + rest) == [Child(f.name, f.value)] + Read(rest)
    ensures FirstNamed(Read([f] + rest), name) == if f.name == name then Some(f.value) else FirstNamed(Read(rest), name)
  {
    assert ([f] + rest)[1..] == rest;
    assert ([Child(f.name, f.value)] + Read(rest))[1..] == Read(rest);
  }

  lemma Lookups(kind: string, number: string, date: string, description: string, more: seq<Field>)
    ensures var children := Read([Field("type", kind, false), Field("num", number, false), Field("date", date, false),
                                  Field("description", description, false)] + more);
            && FirstNamed(children, "type") == Some(kind) && FirstNamed(children, "num") == Some(number)
            && FirstNamed(children, "date") == Some(date) && FirstNamed(children, "description") == Some(description)
  {
    hide Read, FirstNamed;
    var f0, f1, f2, f3 := Field("type", kind, false), Field("num", number, false), Field("date", date, false),
      Field("description", description, false);
    assert [f0, f1, f2, f3] + more == [f0] + ([f1] + ([f2] + ([f3] + more)));
    forall name
      ensures FirstNamed(Read([f0] + ([f1] + ([f2] + ([f3] + more)))), name) ==
              if name == "type" then Some(kind) else if name == "num" then Some(number)
              else if name == "date" then Some(date) else if name == "description" then Some(description)
              else FirstNamed(Read(more), name)
    {
      ReadFirst(f0, [f1] + ([f2] + ([f3] + more)), name);
      ReadFirst(f1, [f2] + ([f3] + more), name);
      ReadFirst(f2, [f3] + more, name);
      ReadFirst(f3, more, name);
    }
    assert "num" != "type" && "date" != "num" && "date" != "type";
    assert "description" != "type" && "description" != "num" && "description" != "date";
  }

  lemma {:induction false} NamedRead(fields: seq<Field>, name: string)
    ensures FirstNamed(Read(fields), name) ==
            if fields == [] then None
            else if fields[0].name == name then Some(fields[0].value) else FirstNamed(Read(fields[1..]), name)
  {
    if fields != [] {
      ReadFirst(fields[0], fields[1..], name);
      assert fields == [fields[0]] + fields[1..];
    }
  }

  lemma {:induction false} NoneNamed(fields: seq<Field>, name: string)
    requires forall f :: f in fields ==> f.name != name
    ensures FirstNamed(Read(fields), name) == None
  {
    if fields != [] {
      NamedRead(fields, name);
      NoneNamed(fields[1..], name);
    }
  }

  /** A file without its number, its type or its date is not read. */
  lemma NeedsAllThree(fields: seq<Field>, name: string)
    requires forall i :: 0 <= i < |fields| ==> Writable(fields[i]) && fields[i].name != "snapshot"
    requires name in {"num", "type", "date"} && forall f :: f in fields ==> f.name != name
    ensures ParseInfo(Print(fields)) == None
  {
    hide *;
    PrintedIsRead(fields);
    NoneNamed(fields, name);
    NothingFrom(Read(fields), name);
  }

  lemma NothingFrom(children: seq<Child>, name: string)
    requires name in {"num", "type", "date"} && FirstNamed(children, name) == None
    ensures FromFields(children) == None
  {
    hide FirstNamed, Unescaped, ParseNumber, ParseType, ParseDate;
    assert UnescapedField(children, name) == None;
  }

  /** A snapshot without a description has an empty one. */
  lemma UndescribedReadsBack(number: nat, kind: Type, epoch: int, more: seq<Field>)
    requires forall i :: 0 <= i < |more| ==> Writable(more[i]) && more[i].name !in {"snapshot", "description"}
    ensures ParseInfo(Print(Undescribed(number, kind, epoch) + more)) ==
            if number <= U64_MAX && Calendar.CivilFromDays(epoch / 86400).year >= 0
            then Some(Info(number, kind, epoch, "")) else None
  {
    hide *;
    var fields := Undescribed(number, kind, epoch) + more;
    NumberReads(number);
    TypeReads(kind);
    DateReads(epoch);
    FieldNames();
    UndescribedWritable(number, kind, epoch, more);
    PrintedIsRead(fields);
    UndescribedAre(number, kind, epoch, more);
  }

  function Undescribed(number: nat, kind: Type, epoch: int): seq<Field> {
    [Field("type", TypeName(kind), false), Field("num", DigitsOf(number, 10), false),
     Field("date", SnapperStamp(epoch), false)]
  }

  lemma UndescribedWritable(number: nat, kind: Type, epoch: int, more: seq<Field>)
    requires '<' !in TypeName(kind) && '<' !in DigitsOf(number, 10) && '<' !in SnapperStamp(epoch)
    requires IsTag("type") && IsTag("num") && IsTag("date")
    requires forall i :: 0 <= i < |more| ==> Writable(more[i]) && more[i].name != "snapshot"
    ensures var fields := Undescribed(number, kind, epoch) + more;
            forall i :: 0 <= i < |fields| ==> Writable(fields[i]) && fields[i].name != "snapshot"
  {
    hide TypeName, DigitsOf, SnapperStamp, IsTag;
  }

  lemma UndescribedAre(number: nat, kind: Type, epoch: int, more: seq<Field>)
    requires forall i :: 0 <= i < |more| ==> more[i].name != "description"
    requires Unescaped(TypeName(kind)) == Some(TypeName(kind)) && ParseType(TypeName(kind)) == Some(kind)
    requires Unescaped(DigitsOf(number, 10)) == Some(DigitsOf(number, 10))
    requires ParseNumber(DigitsOf(number, 10)) == if number <= U64_MAX then Some(number) else None
    requires '&' !in SnapperStamp(epoch)
    requires ParseDate(SnapperStamp(epoch)) ==
             if Calendar.CivilFromDays(epoch / 86400).year >= 0 then Some(epoch) else None
    ensures FromFields(Read(Undescribed(number, kind, epoch) + more)) ==
            if number <= U64_MAX && Calendar.CivilFromDays(epoch / 86400).year >= 0
            then Some(Info(number, kind, epoch, "")) else None
  {
    assert Unescaped(SnapperStamp(epoch)) == Some(SnapperStamp(epoch));
    hide *;
    var f0, f1, f2 := Field("type", TypeName(kind), false), Field("num", DigitsOf(number, 10), false),
      Field("date", SnapperStamp(epoch), false);
    ThreeLookups(f0, f1, f2, more);
    NoneNamed(more, "description");
    UndescribedIs(number, kind, epoch);
    FromThree(Read([f0, f1, f2] + more), DigitsOf(number, 10), TypeName(kind), SnapperStamp(epoch));
  }

  lemma UndescribedIs(number: nat, kind: Type, epoch: int)
    ensures Undescribed(number, kind, epoch) ==
            [Field("type", TypeName(kind), false), Field("num", DigitsOf(number, 10), false),
             Field("date", SnapperStamp(epoch), false)]
  {
  }

  lemma FromThree(children: seq<Child>, number: string, kind: string, date: string)
    requires FirstNamed(children, "num") == Some(number) && Unescaped(number) == Some(number)
    requires FirstNamed(children, "type") == Some(kind) && Unescaped(kind) == Some(kind)
    requires FirstNamed(children, "date") == Some(date) && Unescaped(date) == Some(date)
    requires FirstNamed(children, "description") == None
    ensures FromFields(children) ==
            match (ParseNumber(number), ParseType(kind), ParseDate(date))
            case (Some(n), Some(k), Some(d)) => Some(Info(n, k, d, ""))
            case _ => None
  {
    hide FirstNamed, Unescaped, ParseNumber, ParseType, ParseDate;
  }

  lemma ThreeLookups(f0: Field, f1: Field, f2: Field, more: seq<Field>)
    requires f0.name == "type" && f1.name == "num" && f2.name == "date"
    ensures var children := Read([f0, f1, f2] + more);
            && FirstNamed(children, "type") == Some(f0.value) && FirstNamed(children, "num") == Some(f1.value)
            && FirstNamed(children, "date") == Some(f2.value)
            && FirstNamed(children, "description") == FirstNamed(Read(more), "description")
  {
    hide Read, FirstNamed;
    assert [f0, f1, f2] + more == [f0] + ([f1] + ([f2] + more));
    forall name
      ensures FirstNamed(Read([f0] + ([f1] + ([f2] + more))), name) ==
              if name == "type" then Some(f0.value) else if name == "num" then Some(f1.value)
              else if name == "date" then Some(f2.value) else FirstNamed(Read(more), name)
    {
      ReadFirst(f0, [f1] + ([f2] + more), name);
      ReadFirst(f1, [f2] + more, name);
      ReadFirst(f2, more, name);
    }
    assert "num" != "type" && "date" != "num" && "date" != "type";
    assert "description" != "type" && "description" != "num" && "description" != "date";
  }

  // ---- The name it is catalogued under ----

  const ARCHIVE_PREFIX := "snapper:"
  const FOLDER := ".snapshots"

  /** The names a path's text is made of. */
  function Components(text: string): seq<string>
    decreases |text|
  {
    match Find(text, '/')
    case None => Named(text)
    case Some(n) => Named(text[..n]) + Components(text[n + 1..])
  }

  function Named(name: string): seq<string> {
    if name == "" || name == "." then [] else [name]
  }

  /** The name of the snapshot whose copy is at `path`: its folder is the one
      the copy is in. */
  function ArchiveName(path: seq<string>): string {
    ARCHIVE_PREFIX + (if |path| <= 1 then "/" else Slashed(path[..|path| - 1]))
  }

  /** For a snapshot's name, its copy and the subvolume it is a copy of. */
  function CopyOf(archive: string): Option<(seq<string>, seq<string>)> {
    if !(ARCHIVE_PREFIX <= archive) then None
    else
      var folder := Components(archive[|ARCHIVE_PREFIX|..]);
      var n := |folder|;
      if n < 2 || !AllDigits(folder[n - 1]) || folder[n - 2] != FOLDER then None
      else Some((folder + ["snapshot"], folder[..n - 2]))
  }

  predicate AllComponents(names: seq<string>) {
    forall i :: 0 <= i < |names| ==> IsName(names[i]) && names[i] != "."
  }

  lemma SlashFirst(text: string)
    ensures Components("/" + text) == Components(text)
  {
    FindAfter("", '/', text);
    assert "" + "/" + text == "/" + text;
    assert ("/" + text)[..0] == "" && ("/" + text)[1..] == text;
    assert Components("/" + text) == [] + Components(text);
  }

  lemma NameFirst(name: string, text: string)
    requires IsName(name) && name != "."
    ensures Components(name + "/" + text) == [name] + Components(text)
    ensures Components(name) == [name]
  {
    FindAfter(name, '/', text);
    assert (name + "/" + text)[..|name|] == name && (name + "/" + text)[|name| + 1..] == text;
  }

  lemma {:induction false} PathComponents(names: seq<string>)
    requires AllComponents(names) && names != []
    ensures Components(Path(names)) == names
  {
    hide Components;
    if |names| == 1 {
      NameFirst(names[0], "");
    } else {
      NameFirst(names[0], Path(names[1..]));
      PathComponents(names[1..]);
    }
  }

  lemma SlashedComponents(names: seq<string>)
    requires AllComponents(names)
    ensures Components(Slashed(names)) == names
  {
    if names != [] {
      SlashedPath(names);
      SlashFirst(Path(names));
      PathComponents(names);
    }
  }

  /** A snapshot is named by the folder its copy is in. */
  lemma NamedByFolder(path: seq<string>)
    requires path != []
    ensures ArchiveName(path) == "snapper:" + ("/" + Path(path[..|path| - 1]))
  {
    if |path| > 1 {
      SlashedPath(path[..|path| - 1]);
    }
  }

  /** A snapshot's name says where its copy is, and of which subvolume. */
  lemma CopyOfUndoes(subvolume: seq<string>, number: string)
    requires AllComponents(subvolume) && AllDigits(number) && number != ""
    ensures var path := subvolume + [".snapshots", number, "snapshot"];
            ArchiveName(path) == "snapper:" + Slashed(subvolume + [".snapshots", number]) &&
            CopyOf(ArchiveName(path)) == Some((path, subvolume))
  {
    var path := subvolume + [FOLDER, number, "snapshot"];
    var folder := path[..|path| - 1];
    assert folder == subvolume + [FOLDER, number];
    assert IsName(FOLDER) && FOLDER != ".";
    assert number[0] != '.' && IsName(number);
    SlashedComponents(folder);
    assert ArchiveName(path)[|ARCHIVE_PREFIX|..] == Slashed(folder);
    assert folder[..|folder| - 2] == subvolume;
    assert folder + ["snapshot"] == path;
  }

  lemma {:induction false} ComponentsAre(text: string)
    ensures AllComponents(Components(text))
    decreases |text|
  {
    match Find(text, '/') {
      case None =>
      case Some(n) =>
        ComponentsAre(text[n + 1..]);
    }
  }

  /** A name read as a snapshot's is the name of the snapshot it is read as, up
      to slashes that say nothing; no two snapshots share one. */
  lemma NamedAsRead(archive: string)
    requires CopyOf(archive).Some?
    ensures var (copy, subvolume) := CopyOf(archive).value;
            && CopyOf(ArchiveName(copy)) == Some((copy, subvolume))
            && |copy| == |subvolume| + 3 && copy[..|subvolume|] == subvolume && AllComponents(copy)
  {
    var folder := Components(archive[|ARCHIVE_PREFIX|..]);
    ComponentsAre(archive[|ARCHIVE_PREFIX|..]);
    var n := |folder|;
    assert folder == folder[..n - 2] + [FOLDER, folder[n - 1]];
    assert IsName("snapshot");
    CopyOfUndoes(folder[..n - 2], folder[n - 1]);
    assert folder + ["snapshot"] == folder[..n - 2] + [FOLDER, folder[n - 1], "snapshot"];
  }
}
