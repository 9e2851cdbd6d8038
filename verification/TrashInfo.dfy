/** What a `.trashinfo` says (crates/backtrack-core/src/trash.rs). */
module TrashInfo {
  import opened Text
  import opened Readers

  /** A text's lines: what is before each line break, and after the last. */
  function SplitLines(text: string): seq<string>
    decreases |text|
  {
    if text == "" then []
    else
      match Find(text, '\n')
      case None => [WithoutReturns(text)]
      case Some(n) => [WithoutReturns(text[..n])] + SplitLines(text[n + 1..])
  }

  function WithoutReturns(line: string): string {
    if line != "" && line[|line| - 1] == '\r' then WithoutReturns(line[..|line| - 1]) else line
  }

  const GROUP := "[Trash Info]"

  predicate IsHeader(line: string) {
    line != "" && line[0] == '['
  }

  /** Line `i` is in the group: the last header at or before it is the group's. */
  predicate InGroup(lines: seq<string>, i: nat)
    requires i < |lines|
  {
    exists h :: 0 <= h <= i && lines[h] == GROUP && forall k :: h < k <= i ==> !IsHeader(lines[k])
  }

  /** Line `i` gives `key` in the group. */
  predicate Gives(lines: seq<string>, i: nat, key: string)
    requires i < |lines|
  {
    key <= lines[i] && InGroup(lines, i)
  }

  /** The value of the first line that gives `key`, if any does. */
  ghost predicate FirstGiven(lines: seq<string>, key: string, value: Option<string>) {
    match value
    case None => forall i :: 0 <= i < |lines| ==> !Gives(lines, i, key)
    case Some(text) =>
      exists i :: 0 <= i < |lines| && Gives(lines, i, key) && text == lines[i][|key|..] &&
                  forall k :: 0 <= k < i ==> !Gives(lines, k, key)
  }

  const PATH := "Path="
  const DATE := "DeletionDate="

  lemma TheKeys()
    ensures PATH == "Path=" && DATE == "DeletionDate="
  {
  }

  lemma GroupGoesOn(lines: seq<string>, i: nat)
    requires i < |lines|
    ensures InGroup(lines, i) <==>
            if IsHeader(lines[i]) then lines[i] == GROUP else i > 0 && InGroup(lines, i - 1)
  {
    if IsHeader(lines[i]) {
      assert lines[i] == GROUP ==> InGroup(lines, i);
    } else {
      assert GROUP[0] == '[' && IsHeader(GROUP);
      if i > 0 && InGroup(lines, i - 1) {
        var h :| 0 <= h <= i - 1 && lines[h] == GROUP && forall k :: h < k <= i - 1 ==> !IsHeader(lines[k]);
        assert forall k :: h < k <= i ==> !IsHeader(lines[k]);
      }
    }
  }

  lemma FirstGrows(lines: seq<string>, n: nat, key: string, value: Option<string>)
    requires n < |lines| && FirstGiven(lines[..n], key, value)
    ensures FirstGiven(lines[..n + 1], key,
                       if value.Some? then value else if Gives(lines, n, key) then Some(lines[n][|key|..]) else None)
  {
    var before, after := lines[..n], lines[..n + 1];
    forall i | 0 <= i < n
      ensures Gives(before, i, key) <==> Gives(after, i, key)
    {
      SameLines(before, after, i);
    }
    SameLines(after, lines, n);
    if value.None? && Gives(lines, n, key) {
      assert Gives(after, n, key) && after[n] == lines[n];
    }
  }

  lemma SameLines(a: seq<string>, b: seq<string>, i: nat)
    requires i < |a| <= |b| && a == b[..|a|]
    ensures InGroup(a, i) <==> InGroup(b, i)
  {
    if InGroup(a, i) {
      var h :| 0 <= h <= i && a[h] == GROUP && forall k :: h < k <= i ==> !IsHeader(a[k]);
      assert b[h] == GROUP && forall k :: h < k <= i ==> !IsHeader(b[k]);
    }
    if InGroup(b, i) {
      var h :| 0 <= h <= i && b[h] == GROUP && forall k :: h < k <= i ==> !IsHeader(b[k]);
      assert a[h] == GROUP && forall k :: h < k <= i ==> !IsHeader(a[k]);
    }
  }

  lemma HeaderGivesNothing(lines: seq<string>, i: nat)
    requires i < |lines|
    ensures IsHeader(lines[i]) ==> !Gives(lines, i, PATH) && !Gives(lines, i, DATE)
    ensures !(PATH <= lines[i] && DATE <= lines[i])
  {
    assert PATH[0] == 'P' && DATE[0] == 'D';
  }

  /** What is known once the first `i` lines have been read. */
  ghost predicate ReadTo(lines: seq<string>, i: nat, inGroup: bool, path: Option<string>, date: Option<string>)
    requires i <= |lines|
  {
    && inGroup == (i > 0 && InGroup(lines, i - 1))
    && FirstGiven(lines[..i], PATH, path) && FirstGiven(lines[..i], DATE, date)
  }

  function IfFirst(sofar: Option<string>, gives: bool, line: string, key: string): Option<string>
    requires gives ==> key <= line
  {
    if sofar.None? && gives then Some(line[|key|..]) else sofar
  }

  /** One line more. */
  lemma ReadsOn(lines: seq<string>, i: nat, inGroup: bool, path: Option<string>, date: Option<string>)
    requires i < |lines| && ReadTo(lines, i, inGroup, path, date)
    ensures var line := lines[i];
            if IsHeader(line) then ReadTo(lines, i + 1, line == GROUP, path, date)
            else ReadTo(lines, i + 1, inGroup, IfFirst(path, inGroup && PATH <= line, line, PATH),
                        IfFirst(date, inGroup && DATE <= line, line, DATE))
  {
    GroupGoesOn(lines, i);
    HeaderGivesNothing(lines, i);
    FirstGrows(lines, i, PATH, path);
    FirstGrows(lines, i, DATE, date);
    hide InGroup, FirstGiven, IsHeader;
  }

  /** The first path and the first date of the file's group, if it has both. */
  method ParseInfo(text: string) returns (found: Option<(string, string)>)
    ensures exists path, date ::
              && FirstGiven(SplitLines(text), "Path=", path) && FirstGiven(SplitLines(text), "DeletionDate=", date) &&
              found == if path.Some? && date.Some? then Some((path.value, date.value)) else None
  {
    hide *;
    var lines := SplitLines(text);
    var inGroup := false;
    var path: Option<string>, date: Option<string> := None, None;
    var i := 0;
    NoneRead(lines);
    while i < |lines|
      invariant 0 <= i <= |lines| && ReadTo(lines, i, inGroup, path, date)
    {
      var line := lines[i];
      ReadsOn(lines, i, inGroup, path, date);
      NotBoth(line);
      HeaderIs(line);
      if line != "" && line[0] == '[' {
        inGroup := line == GROUP;
      } else if inGroup {
        if PATH <= line {
          IfFirstIs(path, true, line, PATH);
          IfFirstIs(date, false, line, DATE);
          path := if path.Some? then path else Some(line[|PATH|..]);
        } else if DATE <= line {
          IfFirstIs(path, false, line, PATH);
          IfFirstIs(date, true, line, DATE);
          date := if date.Some? then date else Some(line[|DATE|..]);
        } else {
          IfFirstIs(path, false, line, PATH);
          IfFirstIs(date, false, line, DATE);
        }
      } else {
        IfFirstIs(path, false, line, PATH);
        IfFirstIs(date, false, line, DATE);
      }
      i := i + 1;
    }
    AllRead(lines, inGroup, path, date);
    TheKeys();
    found := if path.Some? && date.Some? then Some((path.value, date.value)) else None;
  }

  lemma IfFirstIs(sofar: Option<string>, gives: bool, line: string, key: string)
    requires gives ==> key <= line
    ensures IfFirst(sofar, gives, line, key) == if sofar.None? && gives then Some(line[|key|..]) else sofar
  {
  }

  lemma NotBoth(line: string)
    ensures !(PATH <= line && DATE <= line)
  {
    assert PATH[0] == 'P' && DATE[0] == 'D';
  }

  lemma NoneRead(lines: seq<string>)
    ensures ReadTo(lines, 0, false, None, None)
  {
  }

  lemma AllRead(lines: seq<string>, inGroup: bool, path: Option<string>, date: Option<string>)
    requires ReadTo(lines, |lines|, inGroup, path, date)
    ensures FirstGiven(lines, PATH, path) && FirstGiven(lines, DATE, date)
  {
    assert lines[..|lines|] == lines;
  }

  lemma HeaderIs(line: string)
    ensures IsHeader(line) <==> line != "" && line[0] == '['
  {
  }

  // ---- Reading back what a desktop writes ----

  predicate OneLine(text: string) {
    '\n' !in text && (text == "" || text[|text| - 1] != '\r')
  }

  predicate AllOneLine(lines: seq<string>) {
    forall i :: 0 <= i < |lines| ==> OneLine(lines[i])
  }

  /** A line's end: any number of carriage returns, and a line break. */
  function Returns(n: nat): string {
    if n == 0 then "" else Returns(n - 1) + "\r"
  }

  function Written(lines: seq<string>, ends: seq<nat>): string
    requires |ends| == |lines|
  {
    if lines == [] then "" else lines[0] + Returns(ends[0]) + "\n" + Written(lines[1..], ends[1..])
  }

  lemma {:induction false} ReturnsGo(line: string, n: nat)
    requires OneLine(line)
    ensures WithoutReturns(line + Returns(n)) == line && '\n' !in line + Returns(n)
  {
    if n == 0 {
      assert line + Returns(0) == line;
    } else {
      ReturnsGo(line, n - 1);
      var text := line + Returns(n);
      assert text == line + Returns(n - 1) + "\r";
      assert text[..|text| - 1] == line + Returns(n - 1);
    }
  }

  lemma LineSplits(line: string, end: nat, rest: string)
    requires OneLine(line)
    ensures SplitLines(line + Returns(end) + "\n" + rest) == [line] + SplitLines(rest)
  {
    ReturnsGo(line, end);
    var ended := line + Returns(end);
    var text := ended + "\n" + rest;
    FindAfter(ended, '\n', rest);
    assert text[..|ended|] == ended && text[|ended| + 1..] == rest;
  }

  /** Lines are read back however many carriage returns end each. */
  lemma {:induction false} LinesRead(lines: seq<string>, ends: seq<nat>)
    requires |ends| == |lines| && AllOneLine(lines)
    ensures SplitLines(Written(lines, ends)) == lines
  {
    if lines != [] {
      LinesRead(lines[1..], ends[1..]);
      LineSplits(lines[0], ends[0], Written(lines[1..], ends[1..]));
    }
  }

  /** A file's lines: the path and the date in the Trash's group, and whatever
      other lines there are before and after. */
  function Lines(before: seq<string>, path: string, date: string, after: seq<string>): seq<string> {
    before + ["[Trash Info]", "Path=" + path, "DeletionDate=" + date] + after
  }

  lemma FirstIs(lines: seq<string>, key: string, at: nat, a: Option<string>)
    requires at < |lines| && Gives(lines, at, key) && forall i :: 0 <= i < at ==> !Gives(lines, i, key)
    requires FirstGiven(lines, key, a)
    ensures a == Some(lines[at][|key|..])
  {
  }

  /** A file written for a path and a date is read as that path and that date,
      whatever is in the groups before and after it. */
  lemma PrintedIsRead(before: seq<string>, path: string, date: string, after: seq<string>, ends: seq<nat>,
                      foundPath: Option<string>, foundDate: Option<string>)
    requires OneLine(path) && OneLine(date) && AllOneLine(before + after) && "[Trash Info]" !in before
    requires |ends| == |Lines(before, path, date, after)|
    requires FirstGiven(SplitLines(Written(Lines(before, path, date, after), ends)), "Path=", foundPath)
    requires FirstGiven(SplitLines(Written(Lines(before, path, date, after), ends)), "DeletionDate=", foundDate)
    ensures foundPath == Some(path) && foundDate == Some(date)
  {
    var lines := Lines(before, path, date, after);
    LinesAreOne(before, path, date, after);
    LinesRead(lines, ends);
    hide SplitLines, OneLine, Written, FirstGiven, Gives, InGroup;
    var n := |before|;
    GroupIsRead(before, path, date, after);
    FirstIs(lines, "Path=", n + 1, foundPath);
    FirstIs(lines, "DeletionDate=", n + 2, foundDate);
    assert lines[n + 1] == "Path=" + path && lines[n + 2] == "DeletionDate=" + date;
  }

  lemma LinesAreOne(before: seq<string>, path: string, date: string, after: seq<string>)
    requires OneLine(path) && OneLine(date) && AllOneLine(before + after)
    ensures AllOneLine(Lines(before, path, date, after))
  {
    var lines := Lines(before, path, date, after);
    var p, d := "Path=" + path, "DeletionDate=" + date;
    assert p[|p| - 1] == if path == "" then '=' else path[|path| - 1];
    assert d[|d| - 1] == if date == "" then '=' else date[|date| - 1];
    assert '\n' !in "Path=" && '\n' !in "DeletionDate=" && '\n' !in "[Trash Info]";
    assert OneLine(p) && OneLine(d) && OneLine("[Trash Info]");
    hide OneLine;
    forall i | 0 <= i < |lines|
      ensures OneLine(lines[i])
    {
      if i >= |before| + 3 {
        assert lines[i] == (before + after)[i - 3];
      } else if i < |before| {
        assert lines[i] == (before + after)[i];
      }
    }
  }

  lemma GroupIsRead(before: seq<string>, path: string, date: string, after: seq<string>)
    requires "[Trash Info]" !in before
    ensures var (lines, n) := (Lines(before, path, date, after), |before|);
            && Gives(lines, n + 1, "Path=") && (forall i :: 0 <= i < n + 1 ==> !Gives(lines, i, "Path="))
            && Gives(lines, n + 2, "DeletionDate=")
            && (forall i :: 0 <= i < n + 2 ==> !Gives(lines, i, "DeletionDate="))
  {
    var lines, n := Lines(before, path, date, after), |before|;
    assert lines[n] == "[Trash Info]" && lines[n + 1] == "Path=" + path && lines[n + 2] == "DeletionDate=" + date;
    assert lines[n][0] == '[' && lines[n + 1][0] == 'P' && lines[n + 2][0] == 'D';
    forall i | 0 <= i < n
      ensures !InGroup(lines, i)
    {
      forall h | 0 <= h <= i
        ensures lines[h] != "[Trash Info]"
      {
        assert lines[h] == before[h];
      }
    }
    assert InGroup(lines, n);
    GroupGoesOn(lines, n + 1);
    GroupGoesOn(lines, n + 2);
  }

  /** What another group holds is not read. */
  lemma OtherGroupsHidden(lines: seq<string>, header: nat, i: nat, key: string)
    requires header <= i < |lines| && "[" <= lines[header]
    requires forall k :: header <= k <= i ==> lines[k] != "[Trash Info]"
    ensures !Gives(lines, i, key)
  {
  }
}
