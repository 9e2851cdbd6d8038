/** Paths, and the patterns file a recovery is fetched with
    (crates/backtrack-core/src/recovery.rs). */
module Recovery {
  import opened Text

  // ---- Paths ----

  /** Whether `path` is `folder` or inside it. The empty folder holds everything. */
  predicate Within(path: string, folder: string) {
    folder == "" || path == folder || folder + "/" <= path
  }

  /** `path` with `folder` taken off the front. */
  function Relative(path: string, folder: string): Option<string> {
    if folder == "" then Some(path)
    else if path == folder then Some("")
    else if folder <= path && path[|folder|..] != "" && path[|folder|] == '/' then Some(path[|folder| + 1..])
    else None
  }

  function Join(folder: string, name: string): string {
    if folder == "" then name else folder + "/" + name
  }

  /** What is inside a folder is what can be put back under it. */
  lemma WithinIsRelative(path: string, folder: string)
    ensures Within(path, folder) <==> Relative(path, folder).Some?
    ensures path == folder ==> Relative(path, folder) == Some("")
    ensures Relative(path, folder).Some? && path != folder ==> Join(folder, Relative(path, folder).value) == path
  {
    if folder != "" && path != folder {
      if folder + "/" <= path {
        assert path[..|folder| + 1] == folder + "/";
        assert path[..|folder|] == folder && path[|folder|] == '/';
      }
      if folder <= path && path[|folder|..] != "" && path[|folder|] == '/' {
        assert path == folder + "/" + path[|folder| + 1..];
      }
    }
  }

  // ---- Names, and the paths they make ----

  predicate IsName(name: string) {
    name != "" && '/' !in name
  }

  function Path(names: seq<string>): string {
    if names == [] then ""
    else if |names| == 1 then names[0]
    else names[0] + "/" + Path(names[1..])
  }

  predicate AllNames(names: seq<string>) {
    forall i :: 0 <= i < |names| ==> IsName(names[i])
  }

  /** The names with a slash before each. */
  function Slashed(names: seq<string>): string {
    if names == [] then "" else "/" + names[0] + Slashed(names[1..])
  }

  lemma {:induction false} SlashedPath(names: seq<string>)
    requires names != []
    ensures Slashed(names) == "/" + Path(names)
  {
    if |names| > 1 {
      SlashedPath(names[1..]);
    } else {
      assert Slashed(names[1..]) == "";
    }
  }

  /** `text` goes on from `start` with a slash, or ends there. */
  predicate GoesOn(text: string, start: string) {
    start <= text && (|text| == |start| || text[|start|] == '/')
  }

  lemma WithinGoesOn(path: string, folder: string)
    requires folder != ""
    ensures Within(path, folder) <==> GoesOn(path, folder)
  {
    if GoesOn(path, folder) && path != folder {
      assert path[..|folder| + 1] == folder + "/";
    }
  }

  lemma GoesOnUnder(start: string, text: string, more: string)
    ensures GoesOn(start + text, start + more) <==> GoesOn(text, more)
  {
    if start + more <= start + text {
      assert text == (start + text)[|start|..];
      assert more == (start + more)[|start|..] == (start + text)[|start|..][..|more|];
    }
    if more <= text {
      assert start + text == (start + more) + text[|more|..];
    }
  }

  function NameEnd(text: string): nat {
    if text == "" || text[0] == '/' then 0 else NameEnd(text[1..]) + 1
  }

  lemma {:induction false} NameEndAfter(name: string, rest: string)
    requires '/' !in name && (rest == "" || rest[0] == '/')
    ensures NameEnd(name + rest) == |name|
  {
    if name == "" {
      assert name + rest == rest;
    } else {
      assert (name + rest)[1..] == name[1..] + rest;
      NameEndAfter(name[1..], rest);
    }
  }

  lemma SameName(a: string, x: string, b: string, y: string)
    requires '/' !in a && '/' !in b && (x == "" || x[0] == '/') && (y == "" || y[0] == '/')
    requires a + x == b + y
    ensures a == b
  {
    NameEndAfter(a, x);
    NameEndAfter(b, y);
    assert a == (a + x)[..|a|] && b == (b + y)[..|b|];
  }

  lemma {:induction false} SlashedIsPrefix(path: seq<string>, folder: seq<string>)
    requires AllNames(path) && AllNames(folder)
    ensures GoesOn(Slashed(path), Slashed(folder)) <==> folder <= path
    decreases |folder|
  {
    if folder != [] && path != [] {
      var p, f := Slashed(path[1..]), Slashed(folder[1..]);
      var start, other := "/" + path[0], "/" + folder[0];
      if path[0] == folder[0] {
        GoesOnUnder(start, p, f);
        SlashedIsPrefix(path[1..], folder[1..]);
        assert path == [path[0]] + path[1..] && folder == [folder[0]] + folder[1..];
      } else if GoesOn(start + p, other + f) {
        SameStart(path[0], p, folder[0], f);
      }
    }
  }

  lemma SameStart(a: string, x: string, b: string, y: string)
    requires '/' !in a && '/' !in b && (x == "" || x[0] == '/') && (y == "" || y[0] == '/')
    requires GoesOn("/" + a + x, "/" + b + y)
    ensures a == b
  {
    var long, short := "/" + a + x, "/" + b + y;
    var rest := long[|short|..];
    assert long == short + rest;
    assert long[1..] == a + x && (short + rest)[1..] == b + (y + rest);
    SameName(a, x, b, y + rest);
  }

  /** A path is inside a folder if and only if the folder's names begin its own. */
  lemma WithinIsPrefix(path: seq<string>, folder: seq<string>)
    requires AllNames(path) && AllNames(folder)
    ensures Within(Path(path), Path(folder)) <==> folder <= path
  {
    if folder != [] {
      SlashedPath(folder);
      SlashedIsPrefix(path, folder);
      WithinGoesOn(Path(path), Path(folder));
      if path != [] {
        SlashedPath(path);
        GoesOnUnder("/", Path(path), Path(folder));
      }
    }
  }

  // ---- The patterns file ----

  /** Unicode's White_Space property. */
  predicate IsSpace(c: char) {
    var n := c as int;
    || 9 <= n <= 13 || n == 0x20 || n == 0x85 || n == 0xA0 || n == 0x1680 || 0x2000 <= n <= 0x200A
    || n == 0x2028 || n == 0x2029 || n == 0x202F || n == 0x205F || n == 0x3000
  }

  /** The twenty-five characters with that property. */
  lemma SpacesAre(c: char)
    ensures IsSpace(c) <==>
            c in "\t\n\U{0B}\U{0C}\r \U{85}\U{A0}\U{1680}\U{2000}\U{2001}\U{2002}\U{2003}\U{2004}\U{2005}" ||
            c in "\U{2006}\U{2007}\U{2008}\U{2009}\U{200A}\U{2028}\U{2029}\U{202F}\U{205F}\U{3000}"
  {
  }

  predicate IsBreak(c: char) {
    c == '\n' || c == '\r'
  }

  predicate Representable(path: string) {
    path != "" && (forall i :: 0 <= i < |path| ==> !IsBreak(path[i])) && !IsSpace(path[|path| - 1])
  }

  predicate AllRepresentable(paths: seq<string>) {
    forall i :: 0 <= i < |paths| ==> Representable(paths[i])
  }

  function Written(sign: string, paths: seq<string>): string {
    if paths == [] then "" else Written(sign, paths[..|paths| - 1]) + sign + paths[|paths| - 1] + "\n"
  }

  method Patterns(never: seq<string>, whole: seq<string>, exact: seq<string>) returns (text: Option<string>)
    ensures text.Some? <==> AllRepresentable(never) && AllRepresentable(whole) && AllRepresentable(exact)
    ensures text.Some? ==> forall path: string :: Selected(text.value, path) <==>
              !(exists i :: 0 <= i < |never| && Within(path, never[i])) &&
              ((exists i :: 0 <= i < |whole| && Within(path, whole[i])) || path in exact)
  {
    var all := never + whole + exact;
    var n := 0;
    while n < |all|
      invariant 0 <= n <= |all| && AllRepresentable(all[..n])
    {
      if !Representable(all[n]) {
        assert all[n] in never || all[n] in whole || all[n] in exact;
        return None;
      }
      n := n + 1;
    }
    forall i | 0 <= i < |never| ensures Representable(never[i]) { assert all[i] == never[i]; }
    forall i | 0 <= i < |whole| ensures Representable(whole[i]) { assert all[|never| + i] == whole[i]; }
    forall i | 0 <= i < |exact| ensures Representable(exact[i]) { assert all[|never| + |whole| + i] == exact[i]; }
    var lines := AppendLines("", "- pp:", never);
    lines := AppendLines(lines, "+ pp:", whole);
    lines := AppendLines(lines, "+ pf:", exact);
    assert lines == Written("- pp:", never) + Written("+ pp:", whole) + Written("+ pf:", exact);
    text := Some(lines + "- *\n");
    forall path: string
      ensures Selected(text.value, path) <==>
              !(exists i :: 0 <= i < |never| && Within(path, never[i])) &&
              ((exists i :: 0 <= i < |whole| && Within(path, whole[i])) || path in exact)
    {
      SelectsWhatIsAsked(never, whole, exact, path);
    }
  }

  method AppendLines(before: string, sign: string, paths: seq<string>) returns (text: string)
    ensures text == before + Written(sign, paths)
  {
    text := before;
    var i := 0;
    while i < |paths|
      invariant 0 <= i <= |paths| && text == before + Written(sign, paths[..i])
    {
      text := text + sign + paths[i] + "\n";
      assert paths[..i + 1][..i] == paths[..i];
      i := i + 1;
    }
    assert paths[..|paths|] == paths;
  }

  // ---- How such a file is read ----

  function LineEnd(text: string): (n: nat)
    ensures n <= |text| && (n < |text| ==> IsBreak(text[n])) && forall i :: 0 <= i < n ==> !IsBreak(text[i])
  {
    if text == "" || IsBreak(text[0]) then 0 else LineEnd(text[1..]) + 1
  }

  function Lines(text: string): seq<string>
    decreases |text|
  {
    if text == "" then []
    else
      var n := LineEnd(text);
      [text[..n]] + (if n < |text| then Lines(text[n + 1..]) else [])
  }

  function TrimEnd(line: string): string {
    if line != "" && IsSpace(line[|line| - 1]) then TrimEnd(line[..|line| - 1]) else line
  }

  function TrimStart(line: string): string {
    if line != "" && IsSpace(line[0]) then TrimStart(line[1..]) else line
  }

  datatype Which = Below(path: string) | Exactly(path: string) | Everything

  datatype Rule = Rule(take: bool, which: Which)

  function ReadTrimmed(trimmed: string): Option<Rule> {
    if trimmed == "" || trimmed[0] !in "+-" then None else ReadAfterSign(trimmed[0] == '+', TrimStart(trimmed[1..]))
  }

  function ReadAfterSign(take: bool, rest: string): Option<Rule> {
    if "pp:" <= rest then Some(Rule(take, Below(rest[3..])))
    else if "pf:" <= rest then Some(Rule(take, Exactly(rest[3..])))
    else if rest == "*" then Some(Rule(take, Everything))
    else None
  }

  /** A sign, and what it is about. */
  function ReadRule(line: string): Option<Rule> {
    ReadTrimmed(TrimStart(TrimEnd(line)))
  }

  predicate Matches(rule: Rule, path: string) {
    match rule.which
    case Below(folder) => Within(path, folder)
    case Exactly(named) => path == named
    case Everything => true
  }

  /** The first rule that matches decides; with none, the path is taken. */
  predicate Takes(lines: seq<string>, path: string) {
    if lines == [] then true
    else
      match ReadRule(lines[0])
      case Some(rule) => if Matches(rule, path) then rule.take else Takes(lines[1..], path)
      case None => Takes(lines[1..], path)
  }

  predicate Selected(text: string, path: string) {
    Takes(Lines(text), path)
  }

  // ---- Reading back ----

  predicate Sign(sign: string) {
    sign == "- pp:" || sign == "+ pp:" || sign == "+ pf:"
  }

  function Meant(sign: string, path: string): Rule
    requires Sign(sign)
  {
    Rule(sign[0] == '+', if sign[3] == 'p' then Below(path) else Exactly(path))
  }

  lemma {:induction false} TrimEndAfter(start: string, path: string)
    requires start != "" && !IsSpace(start[|start| - 1])
    ensures TrimEnd(start + path) == start + TrimEnd(path)
    decreases |path|
  {
    var line := start + path;
    if path == "" {
      assert line == start;
    } else {
      var n := |path| - 1;
      assert line[|line| - 1] == path[n] && line[..|line| - 1] == start + path[..n];
      if IsSpace(path[n]) {
        TrimEndAfter(start, path[..n]);
      }
    }
  }

  lemma TrimEndShortens(line: string)
    ensures TrimEnd(line) <= line
    ensures line != "" && IsSpace(line[|line| - 1]) ==> |TrimEnd(line)| < |line|
  {
  }

  lemma TrimStartStops(line: string)
    requires line != "" && !IsSpace(line[0])
    ensures TrimStart(line) == line && TrimStart(" " + line) == line
  {
    assert (" " + line)[1..] == line;
  }

  /** A line is read as its sign, and its path without the space it ends in. */
  lemma SignReads(sign: string, path: string)
    requires Sign(sign)
    ensures ReadRule(sign + path) == Some(Meant(sign, TrimEnd(path)))
  {
    assert !IsSpace('-') && !IsSpace('+') && !IsSpace('p') && !IsSpace(':');
    hide IsSpace;
    TrimEndAfter(sign, path);
    hide TrimEnd;
    TrimmedReads(sign, TrimEnd(path));
    TrimStartStops(sign + TrimEnd(path));
    hide TrimStart, Sign;
  }

  lemma TrimmedReads(sign: string, name: string)
    requires Sign(sign)
    ensures ReadTrimmed(sign + name) == Some(Meant(sign, name))
  {
    var trimmed, rest := sign + name, sign[2..] + name;
    assert trimmed[1..] == " " + rest;
    assert rest[0] == 'p' && rest[1] == sign[3] && rest[2] == ':' && rest[3..] == name;
    assert !IsSpace('p');
    TrimStartStops(rest);
    hide TrimStart, IsSpace;
    AfterSign(sign[0] == '+', sign[3], rest, name);
  }

  lemma AfterSign(take: bool, kind: char, rest: string, name: string)
    requires |rest| >= 3 && rest[0] == 'p' && rest[1] == kind && rest[2] == ':' && rest[3..] == name
    requires kind == 'p' || kind == 'f'
    ensures ReadAfterSign(take, rest) == Some(Rule(take, if kind == 'p' then Below(name) else Exactly(name)))
  {
    assert kind == 'p' ==> "pp:" <= rest;
    assert kind == 'f' ==> "pf:" <= rest && !("pp:" <= rest);
  }

  lemma {:induction false} LineEndAfter(line: string, rest: string)
    requires forall i :: 0 <= i < |line| ==> !IsBreak(line[i])
    requires rest == "" || IsBreak(rest[0])
    ensures LineEnd(line + rest) == |line|
  {
    if line == "" {
      assert line + rest == rest;
    } else {
      assert (line + rest)[1..] == line[1..] + rest;
      LineEndAfter(line[1..], rest);
    }
  }

  lemma LineFirst(line: string, rest: string)
    requires forall i :: 0 <= i < |line| ==> !IsBreak(line[i])
    ensures Lines(line + "\n" + rest) == [line] + Lines(rest)
  {
    var text := line + ("\n" + rest);
    assert text == line + "\n" + rest;
    LineEndAfter(line, "\n" + rest);
    assert text[..|line|] == line && text[|line| + 1..] == rest;
  }

  lemma LineTakes(sign: string, name: string, rest: string, path: string)
    requires Sign(sign) && Representable(name)
    ensures Selected(sign + name + "\n" + rest, path) <==>
            if Matches(Meant(sign, name), path) then sign[0] == '+' else Selected(rest, path)
  {
    var line := sign + name;
    forall i | 0 <= i < |line|
      ensures !IsBreak(line[i])
    {
      assert i >= |sign| ==> line[i] == name[i - |sign|];
    }
    LineFirst(line, rest);
    SignReads(sign, name);
    hide ReadRule, TrimStart, Within;
    assert TrimEnd(name) == name;
    assert ([line] + Lines(rest))[1..] == Lines(rest);
  }

  ghost predicate AnyMatches(sign: string, names: seq<string>, path: string)
    requires Sign(sign)
  {
    exists i :: 0 <= i < |names| && Matches(Meant(sign, names[i]), path)
  }

  lemma AnyMatchesSplit(sign: string, names: seq<string>, path: string)
    requires Sign(sign) && names != []
    ensures var n := |names| - 1;
            AnyMatches(sign, names, path) <==>
            AnyMatches(sign, names[..n], path) || Matches(Meant(sign, names[n]), path)
  {
    hide Matches, Meant;
    var n := |names| - 1;
    if i :| 0 <= i < n && Matches(Meant(sign, names[..n][i]), path) {
      assert names[i] == names[..n][i];
    }
    if i :| 0 <= i < |names| && Matches(Meant(sign, names[i]), path) && i < n {
      assert names[i] == names[..n][i];
    }
  }

  lemma {:induction false} WrittenTakes(sign: string, names: seq<string>, rest: string, path: string)
    requires Sign(sign) && AllRepresentable(names)
    ensures Selected(Written(sign, names) + rest, path) <==>
            if AnyMatches(sign, names, path) then sign[0] == '+' else Selected(rest, path)
    decreases |names|
  {
    hide Selected, Matches, Meant, Representable, Sign;
    if names == [] {
      assert Written(sign, names) + rest == rest;
    } else {
      var n := |names| - 1;
      var after := sign + names[n] + "\n" + rest;
      assert Written(sign, names) + rest == Written(sign, names[..n]) + after;
      WrittenTakes(sign, names[..n], after, path);
      LineTakes(sign, names[n], rest, path);
      AnyMatchesSplit(sign, names, path);
    }
  }

  lemma SelectsWhatIsAsked(never: seq<string>, whole: seq<string>, exact: seq<string>, path: string)
    requires AllRepresentable(never) && AllRepresentable(whole) && AllRepresentable(exact)
    ensures Selected(Written("- pp:", never) + Written("+ pp:", whole) + Written("+ pf:", exact) + "- *\n", path) <==>
            !(exists i :: 0 <= i < |never| && Within(path, never[i])) &&
            ((exists i :: 0 <= i < |whole| && Within(path, whole[i])) || path in exact)
  {
    hide Selected, Within, Representable, Written;
    var last := "- *\n";
    var third := Written("+ pf:", exact) + last;
    var second := Written("+ pp:", whole) + third;
    assert Written("- pp:", never) + Written("+ pp:", whole) + Written("+ pf:", exact) + last ==
           Written("- pp:", never) + second;
    WrittenTakes("- pp:", never, second, path);
    WrittenTakes("+ pp:", whole, third, path);
    WrittenTakes("+ pf:", exact, last, path);
    LastLine(path);
    AnyBelow("- pp:", never, path);
    AnyBelow("+ pp:", whole, path);
    AnyExactly(exact, path);
  }

  lemma AnyBelow(sign: string, names: seq<string>, path: string)
    requires Sign(sign) && sign[3] == 'p'
    ensures AnyMatches(sign, names, path) <==> exists i :: 0 <= i < |names| && Within(path, names[i])
  {
    hide Within;
    forall i | 0 <= i < |names|
      ensures Matches(Meant(sign, names[i]), path) <==> Within(path, names[i])
    {
    }
  }

  lemma AnyExactly(names: seq<string>, path: string)
    ensures AnyMatches("+ pf:", names, path) <==> path in names
  {
    forall i | 0 <= i < |names|
      ensures Matches(Meant("+ pf:", names[i]), path) <==> path == names[i]
    {
    }
  }

  lemma LastLine(path: string)
    ensures !Selected("- *\n", path)
  {
    LineFirst("- *", "");
    assert "- *" + "\n" + "" == "- *\n";
    LastRule();
  }

  lemma LastRule()
    ensures ReadRule("- *") == Some(Rule(false, Everything))
  {
    var line := "- *";
    assert TrimEnd(line) == line && TrimStart(line) == line;
    assert line[1..] == " *" && " *"[1..] == "*";
    assert TrimStart("*") == "*" && TrimStart(" *") == "*";
  }

  /** The first line of a file is read up to its first line break. */
  lemma FirstLine(path: string)
    ensures var part := path[..LineEnd(path)];
            Lines("+ pf:" + path + "\n") != [] &&
            ReadRule(Lines("+ pf:" + path + "\n")[0]) == Some(Rule(true, Exactly(TrimEnd(part))))
  {
    hide ReadRule, TrimEnd, LineEnd;
    var n := LineEnd(path);
    var line := "+ pf:" + path[..n];
    var text := "+ pf:" + path + "\n";
    assert text == line + (path[n..] + "\n");
    LineEndAfter(line, path[n..] + "\n");
    assert text[..|line|] == line;
    SignReads("+ pf:", path[..n]);
  }

  /** A path written into such a file is read back as itself if and only if it
      is one of those the file is not refused for, or is empty. */
  lemma PathReadsBackIff(path: string)
    ensures (Lines("+ pf:" + path + "\n") != [] &&
             ReadRule(Lines("+ pf:" + path + "\n")[0]) == Some(Rule(true, Exactly(path)))) <==>
            path == "" || Representable(path)
  {
    FirstLine(path);
    hide Lines, ReadRule;
    var part := path[..LineEnd(path)];
    TrimEndShortens(part);
    if LineEnd(path) == |path| {
      assert part == path;
    } else {
      assert IsBreak(path[LineEnd(path)]);
    }
  }
}
