/**
 * Configuration.java: the resource pool and the task table read from a configuration file.
 * A task line names the task, then its dependencies, then four numbers (cpu, memory, disks,
 * priority); a dependency that has no line of its own becomes a task with zero demand.
 */
module Configurations {
  import opened Wrappers
  import opened Tokens
  import opened Tasks

  /** The exceptions that escape fromFile. */
  datatype ParseError =
    | EmptyFile              // readLine() returned null, so split fails with a NullPointerException
    | MissingField           // an array index or copyOfRange bound outside the token array
    | BadNumber(token: string) // Integer.parseInt threw NumberFormatException on this token

  /** What parseLine reads from one line. */
  datatype TaskLine = TaskLine(name: string, deps: seq<string>, cpu: int, memory: int, disks: int, priority: int)

  /** The whole file: the pool from the header and the two maps the task lines fill. */
  datatype ConfigData = ConfigData(
    cpus: int, memory: int, disks: int,
    nameToTask: map<string, Task>, nameToDepNames: map<string, seq<string>>)

  function LineTask(e: TaskLine): Task {
    Task(e.name, e.cpu, e.memory, e.disks, e.priority)
  }

  /** Four Integer.parseInt calls in order: the first malformed token is the error. */
  function ParseFour(a: string, b: string, c: string, d: string): (r: Result<(int, int, int, int), ParseError>)
    ensures r.Success? <==> ParseInt(a).Some? && ParseInt(b).Some? && ParseInt(c).Some? && ParseInt(d).Some?
    ensures r.Success? ==> r.value == (ParseInt(a).value, ParseInt(b).value, ParseInt(c).value, ParseInt(d).value)
    ensures ParseInt(a).None? ==> r == Failure(BadNumber(a))
    ensures ParseInt(a).Some? && ParseInt(b).None? ==> r == Failure(BadNumber(b))
    ensures ParseInt(a).Some? && ParseInt(b).Some? && ParseInt(c).None? ==> r == Failure(BadNumber(c))
    ensures ParseInt(a).Some? && ParseInt(b).Some? && ParseInt(c).Some? && ParseInt(d).None? ==>
      r == Failure(BadNumber(d))
  {
    match ParseInt(a)
    case None => Failure(BadNumber(a))
    case Some(x) =>
      match ParseInt(b)
      case None => Failure(BadNumber(b))
      case Some(y) =>
        match ParseInt(c)
        case None => Failure(BadNumber(c))
        case Some(z) =>
          match ParseInt(d)
          case None => Failure(BadNumber(d))
          case Some(w) => Success((x, y, z, w))
  }

  /** The tokens of a task line: separators become spaces, then the line is split on whitespace. */
  function LineTokens(line: string): (args: seq<string>)
    ensures forall i | 0 <= i < |args| :: NoWhitespace(args[i])
    ensures forall i | 0 <= i < |args| :: NoSeparator(args[i])
    ensures forall i | 0 < i < |args| :: IsWord(args[i])
  {
    SplitOnWhitespace(Normalize(line))
  }

  /**
   * The pure part of parseLine: the first token is the name, the last four are cpu, memory,
   * disks and priority, and the tokens strictly between are the dependency names. Fewer than
   * four tokens make copyOfRange fail; with exactly four the name token is also read as cpu.
   */
  function ParseTaskLine(line: string): (r: Result<TaskLine, ParseError>)
    ensures r.Success? ==> |LineTokens(line)| >= 4
    ensures r.Success? ==> forall i | 0 <= i < |r.value.deps| :: IsWord(r.value.deps[i])
    ensures r.Success? ==> NoWhitespace(r.value.name)
    ensures r.Success? ==> IntMin <= r.value.cpu <= IntMax && IntMin <= r.value.memory <= IntMax
    ensures r.Success? ==> IntMin <= r.value.disks <= IntMax && IntMin <= r.value.priority <= IntMax
    ensures |LineTokens(line)| < 4 ==> r == Failure(MissingField)
  {
    ParseTokens(LineTokens(line))
  }

  /** parseLine after the split, on the token array. */
  function ParseTokens(args: seq<string>): (r: Result<TaskLine, ParseError>)
    requires forall i | 0 <= i < |args| :: NoWhitespace(args[i])
    requires forall i | 0 < i < |args| :: IsWord(args[i])
    ensures r.Success? ==> |args| >= 4
    ensures r.Success? ==> forall i | 0 <= i < |r.value.deps| :: IsWord(r.value.deps[i])
    ensures r.Success? ==> NoWhitespace(r.value.name)
    ensures r.Success? ==> IntMin <= r.value.cpu <= IntMax && IntMin <= r.value.memory <= IntMax
    ensures r.Success? ==> IntMin <= r.value.disks <= IntMax && IntMin <= r.value.priority <= IntMax
    ensures |args| < 4 ==> r == Failure(MissingField)
  {
    var n := |args|;
    if n < 4 then Failure(MissingField)
    else
      var p := ParseFour(args[n - 4], args[n - 3], args[n - 2], args[n - 1]);
      if p.Failure? then Failure(p.error)
      else
        var deps := if n >= 5 then args[1..n - 4] else [];
        assert forall i | 0 <= i < |deps| :: deps[i] == args[i + 1];
        Success(TaskLine(args[0], deps, p.value.0, p.value.1, p.value.2, p.value.3))
  }

  /**
   * With at least four tokens, parseLine succeeds exactly when the last four tokens are numbers;
   * the first malformed one of them is the error, and otherwise the name is the first token and
   * the dependencies are the tokens strictly between.
   */
  lemma ParseTaskLineMeaning(line: string)
    ensures var a := LineTokens(line); var n := |a|;
      n >= 4 ==> var p := ParseFour(a[n - 4], a[n - 3], a[n - 2], a[n - 1]);
        && (ParseTaskLine(line).Success? <==> p.Success?)
        && (ParseTaskLine(line).Failure? ==> ParseTaskLine(line).error == p.error)
        && (ParseTaskLine(line).Success? ==>
              ParseTaskLine(line).value
              == TaskLine(a[0], if n >= 5 then a[1..n - 4] else [], p.value.0, p.value.1, p.value.2, p.value.3))
  {
    ParseTokensMeaning(LineTokens(line));
  }

  lemma ParseTokensMeaning(a: seq<string>)
    requires forall i | 0 <= i < |a| :: NoWhitespace(a[i])
    requires forall i | 0 < i < |a| :: IsWord(a[i])
    ensures var n := |a|;
      n >= 4 ==> var p := ParseFour(a[n - 4], a[n - 3], a[n - 2], a[n - 1]);
        && (ParseTokens(a).Success? <==> p.Success?)
        && (ParseTokens(a).Failure? ==> ParseTokens(a).error == p.error)
        && (ParseTokens(a).Success? ==>
              ParseTokens(a).value
              == TaskLine(a[0], if n >= 5 then a[1..n - 4] else [], p.value.0, p.value.1, p.value.2, p.value.3))
  {
  }

  /** A task line written out with single spaces. */
  function FormatTaskLine(e: TaskLine): string {
    JoinWords(LineWords(e))
  }

  predicate WellFormedLine(e: TaskLine) {
    && IsWord(e.name)
    && (forall i | 0 <= i < |e.deps| :: IsWord(e.deps[i]))
    && IntMin <= e.cpu <= IntMax && IntMin <= e.memory <= IntMax
    && IntMin <= e.disks <= IntMax && IntMin <= e.priority <= IntMax
  }

  lemma NormalizeWithoutSeparators(s: string)
    requires NoSeparator(s)
    ensures Normalize(s) == s
  {
  }

  /** The words a task line is written with. */
  function LineWords(e: TaskLine): seq<string> {
    [e.name] + e.deps + [ShowInt(e.cpu), ShowInt(e.memory), ShowInt(e.disks), ShowInt(e.priority)]
  }

  lemma LineWordsAreWords(e: TaskLine)
    requires WellFormedLine(e)
    ensures forall i | 0 <= i < |LineWords(e)| :: IsWord(LineWords(e)[i])
  {
    var ws := LineWords(e);
    ShownIntIsWord(e.cpu);
    ShownIntIsWord(e.memory);
    ShownIntIsWord(e.disks);
    ShownIntIsWord(e.priority);
    forall i | 0 <= i < |ws| ensures IsWord(ws[i]) {
      if 0 < i <= |e.deps| {
        assert ws[i] == e.deps[i - 1];
      }
    }
  }

  /** Tokenising a formatted line gives back its words. */
  lemma FormattedLineTokens(e: TaskLine)
    requires WellFormedLine(e)
    ensures LineTokens(FormatTaskLine(e)) == LineWords(e)
  {
    var ws := LineWords(e);
    LineWordsAreWords(e);
    var line := FormatTaskLine(e);
    assert line == JoinWords(ws);
    JoinedWordsWithoutSeparators(ws);
    NormalizeWithoutSeparators(line);
    SplitJoinedWords(ws);
  }

  /** Round trip: parsing a formatted line gives back the name, dependencies and numbers. */
  lemma ParseFormattedLine(e: TaskLine)
    requires WellFormedLine(e)
    ensures ParseTaskLine(FormatTaskLine(e)) == Success(e)
  {
    FormattedLineTokens(e);
    ParseLineWords(FormatTaskLine(e), e);
  }

  /** A line whose tokens are the words of e parses to e. */
  lemma ParseLineWords(line: string, e: TaskLine)
    requires WellFormedLine(e) && LineTokens(line) == LineWords(e)
    ensures ParseTaskLine(line) == Success(e)
  {
    var ws := LineWords(e);
    assert ws[1..|ws| - 4] == e.deps;
    assert ws[|ws| - 4] == ShowInt(e.cpu) && ws[|ws| - 3] == ShowInt(e.memory);
    assert ws[|ws| - 2] == ShowInt(e.disks) && ws[|ws| - 1] == ShowInt(e.priority);
    ParseShownInt(e.cpu);
    ParseShownInt(e.memory);
    ParseShownInt(e.disks);
    ParseShownInt(e.priority);
  }

  lemma {:induction false} JoinedWordsWithoutSeparators(ws: seq<string>)
    requires |ws| >= 1 && forall i | 0 <= i < |ws| :: IsWord(ws[i])
    ensures NoSeparator(JoinWords(ws))
  {
    if |ws| > 1 {
      JoinedWordsWithoutSeparators(ws[1..]);
      var s := JoinWords(ws);
      var t := JoinWords(ws[1..]);
      assert s == ws[0] + " " + t;
      forall i | 0 <= i < |s| ensures !IsSeparator(s[i]) {
        if i < |ws[0]| { assert s[i] == ws[0][i]; }
        else if i > |ws[0]| { assert s[i] == t[i - |ws[0]| - 1]; }
      }
    }
  }

  /** A separator character in place of a space does not change how a line parses. */
  lemma SeparatorActsAsSpace(line: string, i: nat, c: char)
    requires i < |line| && line[i] == ' ' && IsSeparator(c)
    ensures ParseTaskLine(line[i := c]) == ParseTaskLine(line)
  {
    NormalizeSeparatorAsSpace(line, i, c);
    assert LineTokens(line[i := c]) == LineTokens(line);
  }

  lemma NormalizeSeparatorAsSpace(line: string, i: nat, c: char)
    requires i < |line| && line[i] == ' ' && IsSeparator(c)
    ensures Normalize(line[i := c]) == Normalize(line)
  {
    var a := Normalize(line[i := c]);
    var b := Normalize(line);
    forall j | 0 <= j < |a| ensures a[j] == b[j] {
      if j != i {
        assert line[i := c][j] == line[j];
      }
    }
  }

  /** What parseLine treats as space between tokens: whitespace or a separator. */
  predicate IsGapChar(c: char) {
    IsWhitespace(c) || IsSeparator(c)
  }

  predicate AllGapChars(s: string) {
    forall i | 0 <= i < |s| :: IsGapChar(s[i])
  }

  /** A non-empty run of whitespace and separators, such as "(", ", " or "): ". */
  predicate IsGap(g: string) {
    g != [] && AllGapChars(g)
  }

  lemma NormalizeAppend(a: string, b: string)
    ensures Normalize(a + b) == Normalize(a) + Normalize(b)
  {
    assert forall i | 0 <= i < |a + b| :: (a + b)[i] == if i < |a| then a[i] else b[i - |a|];
  }

  lemma NormalizeGapChars(g: string)
    requires AllGapChars(g)
    ensures |Normalize(g)| == |g| && AllWhitespace(Normalize(g))
  {
  }

  /** The gaps with every separator replaced by a space. */
  function NormalizeEach(gaps: seq<string>): (r: seq<string>)
    ensures |r| == |gaps| && forall i | 0 <= i < |gaps| :: r[i] == Normalize(gaps[i])
  {
    seq(|gaps|, i requires 0 <= i < |gaps| => Normalize(gaps[i]))
  }

  /** Normalize leaves the words alone and works on the gaps. */
  lemma {:induction false} NormalizeSpaced(ws: seq<string>, gaps: seq<string>)
    requires |ws| >= 1 && |gaps| == |ws| - 1 && forall i | 0 <= i < |ws| :: NoSeparator(ws[i])
    ensures Normalize(Spaced(ws, gaps)) == Spaced(ws, NormalizeEach(gaps))
    decreases |ws|
  {
    assert NoSeparator(ws[0]);
    NormalizeWithoutSeparators(ws[0]);
    if |ws| > 1 {
      var rest := Spaced(ws[1..], gaps[1..]);
      assert Spaced(ws, gaps) == (ws[0] + gaps[0]) + rest;
      NormalizeAppend(ws[0] + gaps[0], rest);
      NormalizeAppend(ws[0], gaps[0]);
      assert forall i | 0 <= i < |ws[1..]| :: ws[1..][i] == ws[i + 1];
      NormalizeSpaced(ws[1..], gaps[1..]);
      assert NormalizeEach(gaps)[1..] == NormalizeEach(gaps[1..]);
    }
  }

  /**
   * The tokens of a line made of words separated by runs of whitespace and separators: the words,
   * preceded by one empty token when the line starts with such a run.
   */
  lemma LineTokensOfSpaced(lead: string, ws: seq<string>, gaps: seq<string>, trail: string)
    requires |ws| >= 1 && |gaps| == |ws| - 1
    requires forall i | 0 <= i < |ws| :: IsWord(ws[i])
    requires forall i | 0 <= i < |gaps| :: IsGap(gaps[i])
    requires AllGapChars(lead) && AllGapChars(trail)
    ensures LineTokens(lead + Spaced(ws, gaps) + trail) == (if lead == [] then [] else [[]]) + ws
  {
    NormalizedSpacedLine(lead, ws, gaps, trail);
    var gs := NormalizeEach(gaps);
    forall i | 0 <= i < |gs| ensures IsRun(gs[i]) {
      assert IsGap(gaps[i]);
      NormalizeGapChars(gaps[i]);
    }
    NormalizeGapChars(lead);
    NormalizeGapChars(trail);
    assert forall i | 0 <= i < |ws| :: IsToken(ws[i]);
    SplitSpaced(Normalize(lead), ws, gs, Normalize(trail));
  }

  lemma NormalizedSpacedLine(lead: string, ws: seq<string>, gaps: seq<string>, trail: string)
    requires |ws| >= 1 && |gaps| == |ws| - 1
    requires forall i | 0 <= i < |ws| :: IsWord(ws[i])
    ensures Normalize(lead + Spaced(ws, gaps) + trail)
      == Normalize(lead) + Spaced(ws, NormalizeEach(gaps)) + Normalize(trail)
  {
    assert forall i | 0 <= i < |ws| :: NoSeparator(ws[i]);
    NormalizeSpaced(ws, gaps);
    NormalizeAppend(lead + Spaced(ws, gaps), trail);
    NormalizeAppend(lead, Spaced(ws, gaps));
  }

  /**
   * A task line written with any runs of whitespace and separators between its words, as in
   * "main(f1, f2): 1 2 3 4", parses to its name, dependencies and numbers.
   */
  lemma ParseSpacedLine(e: TaskLine, gaps: seq<string>, trail: string)
    requires WellFormedLine(e) && |gaps| == |LineWords(e)| - 1
    requires forall i | 0 <= i < |gaps| :: IsGap(gaps[i])
    requires AllGapChars(trail)
    ensures ParseTaskLine(Spaced(LineWords(e), gaps) + trail) == Success(e)
  {
    var ws := LineWords(e);
    LineWordsAreWords(e);
    LineTokensOfSpaced([], ws, gaps, trail);
    AppendEmpty(Spaced(ws, gaps) + trail);
    Associate([], Spaced(ws, gaps), trail);
    AppendEmpty(ws);
    ParseLineWords(Spaced(ws, gaps) + trail, e);
  }

  /** A line in the format of the configuration files. */
  lemma ParseExampleLine()
    ensures ParseTaskLine("main(f1, f2, f3): 1 2 3 4") == Success(TaskLine("main", ["f1", "f2", "f3"], 1, 2, 3, 4))
  {
    var e := TaskLine("main", ["f1", "f2", "f3"], 1, 2, 3, 4);
    var gaps := ["(", ", ", ", ", "): ", " ", " ", " "];
    ExampleLineWords();
    ExampleLineGaps();
    ExampleLineSpaced();
    ParseSpacedLine(e, gaps, "");
  }

  lemma ExampleLineWords()
    ensures var e := TaskLine("main", ["f1", "f2", "f3"], 1, 2, 3, 4);
      WellFormedLine(e) && LineWords(e) == ["main", "f1", "f2", "f3", "1", "2", "3", "4"]
  {
    var e := TaskLine("main", ["f1", "f2", "f3"], 1, 2, 3, 4);
    assert ShowInt(1) == "1" && ShowInt(2) == "2" && ShowInt(3) == "3" && ShowInt(4) == "4";
    assert IsWord("main") && IsWord("f1") && IsWord("f2") && IsWord("f3");
  }

  lemma ExampleLineGaps()
    ensures var gaps := ["(", ", ", ", ", "): ", " ", " ", " "];
      forall i | 0 <= i < |gaps| :: IsGap(gaps[i])
  {
    assert IsGap("(") && IsGap(", ") && IsGap("): ") && IsGap(" ");
  }

  lemma ExampleLineSpaced()
    ensures Spaced(["main", "f1", "f2", "f3", "1", "2", "3", "4"], ["(", ", ", ", ", "): ", " ", " ", " "]) + ""
      == "main(f1, f2, f3): 1 2 3 4"
  {
    ExampleDependenciesSpaced();
    SpacedCons(["main", "f1", "f2", "f3", "1", "2", "3", "4"], ["(", ", ", ", ", "): ", " ", " ", " "]);
  }

  lemma ExampleDependenciesSpaced()
    ensures Spaced(["f1", "f2", "f3", "1", "2", "3", "4"], [", ", ", ", "): ", " ", " ", " "]) == "f1, f2, f3): 1 2 3 4"
  {
    ExampleLastDependencySpaced();
    var ws := ["f1", "f2", "f3", "1", "2", "3", "4"];
    var gaps := [", ", ", ", "): ", " ", " ", " "];
    assert ws[1..][1..] == ["f3", "1", "2", "3", "4"] && gaps[1..][1..] == ["): ", " ", " ", " "];
    SpacedCons(ws[1..], gaps[1..]);
    SpacedCons(ws, gaps);
  }

  lemma ExampleLastDependencySpaced()
    ensures Spaced(["f3", "1", "2", "3", "4"], ["): ", " ", " ", " "]) == "f3): 1 2 3 4"
  {
    ExampleNumbersSpaced();
    var ws := ["f3", "1", "2", "3", "4"];
    var gaps := ["): ", " ", " ", " "];
    assert ws[1..] == ["1", "2", "3", "4"] && gaps[1..] == [" ", " ", " "];
    SpacedCons(ws, gaps);
  }

  lemma ExampleNumbersSpaced()
    ensures Spaced(["1", "2", "3", "4"], [" ", " ", " "]) == "1 2 3 4"
  {
    var ws := ["1", "2", "3", "4"];
    var gaps := [" ", " ", " "];
    assert Spaced(ws[3..], gaps[3..]) == "4";
    assert Spaced(ws[2..], gaps[2..]) == "3 4";
    assert Spaced(ws[1..], gaps[1..]) == "2 3 4";
  }

  // ---------------------------------------------------------------- the two maps

  /** The loop of parseLine: putIfAbsent of a default task and an empty list for each name. */
  function PutDefaults(tasks: map<string, Task>, depNames: map<string, seq<string>>, ds: seq<string>)
    : (r: (map<string, Task>, map<string, seq<string>>))
    ensures forall n :: n in r.0 <==> n in tasks || n in ds
    ensures forall n | n in r.0 :: r.0[n] == if n in tasks then tasks[n] else DefaultTask(n)
    ensures forall n :: n in r.1 <==> n in depNames || n in ds
    ensures forall n | n in r.1 :: r.1[n] == if n in depNames then depNames[n] else []
    decreases |ds|
  {
    if ds == [] then (tasks, depNames)
    else
      var d := ds[0];
      assert forall n :: n in ds <==> n == d || n in ds[1..];
      PutDefaults(
        if d in tasks then tasks else tasks[d := DefaultTask(d)],
        if d in depNames then depNames else depNames[d := []],
        ds[1..])
  }

  /**
   * The effect of a parsed line on the maps: the line's task replaces any earlier entry (default
   * or explicit) and so does its dependency list; each dependency name not seen before gets a
   * default task and an empty list; every other entry is untouched.
   */
  function Define(tasks: map<string, Task>, depNames: map<string, seq<string>>, e: TaskLine)
    : (r: (map<string, Task>, map<string, seq<string>>))
    ensures forall n :: n in r.0 <==> n in tasks || n == e.name || n in e.deps
    ensures e.name in r.0 && r.0[e.name] == LineTask(e)
    ensures forall n | n in r.0 && n != e.name :: r.0[n] == if n in tasks then tasks[n] else DefaultTask(n)
    ensures forall n :: n in r.1 <==> n in depNames || n == e.name || n in e.deps
    ensures e.name in r.1 && r.1[e.name] == e.deps
    ensures forall n | n in r.1 && n != e.name :: r.1[n] == if n in depNames then depNames[n] else []
  {
    var withTask := tasks[e.name := LineTask(e)];
    var defaults := PutDefaults(withTask, depNames, e.deps);
    (defaults.0, defaults.1[e.name := e.deps])
  }

  /**
   * What every Configuration satisfies: both maps have the same names, a name maps to a task of
   * that name, and every dependency name has a task.
   */
  ghost predicate ConfigInvariant(tasks: map<string, Task>, depNames: map<string, seq<string>>) {
    && tasks.Keys == depNames.Keys
    && (forall n | n in tasks :: tasks[n].name == n)
    && (forall n, i | n in depNames && 0 <= i < |depNames[n]| :: depNames[n][i] in tasks)
  }

  lemma DefineKeepsInvariant(tasks: map<string, Task>, depNames: map<string, seq<string>>, e: TaskLine)
    requires ConfigInvariant(tasks, depNames)
    ensures ConfigInvariant(Define(tasks, depNames, e).0, Define(tasks, depNames, e).1)
  {
    var r := Define(tasks, depNames, e);
    forall n, i | n in r.1 && 0 <= i < |r.1[n]| ensures r.1[n][i] in r.0 {
      if n == e.name {
        assert r.1[n][i] in e.deps;
      } else if n in depNames {
        assert r.1[n][i] in tasks;
      }
    }
  }

  // ---------------------------------------------------------------- the whole file

  /** The header line "cpus, memory, disks", split on a comma and one whitespace character. */
  function ParseHeader(header: string): (r: Result<(int, int, int), ParseError>)
    ensures var rs := SplitOnCommaWs(header);
      r.Success? <==> |rs| >= 3 && ParseInt(rs[0]).Some? && ParseInt(rs[1]).Some? && ParseInt(rs[2]).Some?
    ensures var rs := SplitOnCommaWs(header);
      |rs| >= 1 && ParseInt(rs[0]).None? ==> r == Failure(BadNumber(rs[0]))
    ensures var rs := SplitOnCommaWs(header);
      |rs| >= 2 && ParseInt(rs[0]).Some? && ParseInt(rs[1]).None? ==> r == Failure(BadNumber(rs[1]))
    ensures var rs := SplitOnCommaWs(header);
      |rs| >= 3 && ParseInt(rs[0]).Some? && ParseInt(rs[1]).Some? && ParseInt(rs[2]).None? ==>
        r == Failure(BadNumber(rs[2]))
    ensures var rs := SplitOnCommaWs(header);
      |rs| < 3 && (forall i | 0 <= i < |rs| :: ParseInt(rs[i]).Some?) ==> r == Failure(MissingField)
    ensures r.Success? ==> ParseInt(SplitOnCommaWs(header)[0]) == Some(r.value.0)
    ensures r.Success? ==> ParseInt(SplitOnCommaWs(header)[1]) == Some(r.value.1)
    ensures r.Success? ==> ParseInt(SplitOnCommaWs(header)[2]) == Some(r.value.2)
  {
    var rs := SplitOnCommaWs(header);
    if |rs| < 1 then Failure(MissingField)
    else match ParseInt(rs[0])
      case None => Failure(BadNumber(rs[0]))
      case Some(c) =>
        if |rs| < 2 then Failure(MissingField)
        else match ParseInt(rs[1])
          case None => Failure(BadNumber(rs[1]))
          case Some(m) =>
            if |rs| < 3 then Failure(MissingField)
            else match ParseInt(rs[2])
              case None => Failure(BadNumber(rs[2]))
              case Some(d) => Success((c, m, d))
  }

  /** A word holds no comma at all, so no comma followed by whitespace. */
  lemma WordHasNoCommaWs(w: string)
    requires IsWord(w)
    ensures NoCommaWs(w)
  {
    forall i | 0 <= i < |w| - 1 ensures !(w[i] == ',' && IsWhitespace(w[i + 1])) {
      assert !IsSeparator(w[i]);
    }
  }

  /** Round trip: a header written as "cpus, memory, disks" reads back as those three numbers. */
  lemma ParseShownHeader(c: int, m: int, d: int)
    requires IntMin <= c <= IntMax && IntMin <= m <= IntMax && IntMin <= d <= IntMax
    ensures ParseHeader(JoinCommaSpace([ShowInt(c), ShowInt(m), ShowInt(d)])) == Success((c, m, d))
  {
    var fs := [ShowInt(c), ShowInt(m), ShowInt(d)];
    ShownIntIsWord(c);
    ShownIntIsWord(m);
    ShownIntIsWord(d);
    WordHasNoCommaWs(fs[0]);
    WordHasNoCommaWs(fs[1]);
    WordHasNoCommaWs(fs[2]);
    SplitJoinedFields(fs);
    ParseShownInt(c);
    ParseShownInt(m);
    ParseShownInt(d);
  }

  /** The task lines in order: each is trimmed, blank ones are skipped, the others are parsed. */
  function ApplyLines(tasks: map<string, Task>, depNames: map<string, seq<string>>, lines: seq<string>)
    : Result<(map<string, Task>, map<string, seq<string>>), ParseError>
    decreases |lines|
  {
    if lines == [] then Success((tasks, depNames))
    else
      var trimmed := Trim(lines[0]);
      if trimmed == [] then ApplyLines(tasks, depNames, lines[1..])
      else
        match ParseTaskLine(trimmed)
        case Failure(err) => Failure(err)
        case Success(e) =>
          var r := Define(tasks, depNames, e);
          ApplyLines(r.0, r.1, lines[1..])
  }

  /** One step of the task lines from line i: skipped when blank, else its parse decides. */
  lemma ApplyLinesStep(tasks: map<string, Task>, depNames: map<string, seq<string>>, lines: seq<string>, i: int)
    requires 0 <= i < |lines|
    ensures Trim(lines[i]) == [] ==> ApplyLines(tasks, depNames, lines[i..]) == ApplyLines(tasks, depNames, lines[i + 1..])
    ensures Trim(lines[i]) != [] && ParseTaskLine(Trim(lines[i])).Failure? ==>
      ApplyLines(tasks, depNames, lines[i..]) == Failure(ParseTaskLine(Trim(lines[i])).error)
    ensures Trim(lines[i]) != [] && ParseTaskLine(Trim(lines[i])).Success? ==>
      var r := Define(tasks, depNames, ParseTaskLine(Trim(lines[i])).value);
      ApplyLines(tasks, depNames, lines[i..]) == ApplyLines(r.0, r.1, lines[i + 1..])
  {
    assert lines[i..][0] == lines[i] && lines[i..][1..] == lines[i + 1..];
  }

  /**
   * fromFile on the lines of the file: an empty file fails first, then a bad header, then a bad
   * task line; otherwise the pool is the header's.
   */
  function ParseFile(lines: seq<string>): (r: Result<ConfigData, ParseError>)
    ensures lines == [] ==> r == Failure(EmptyFile)
    ensures lines != [] && ParseHeader(lines[0]).Failure? ==> r == Failure(ParseHeader(lines[0]).error)
    ensures lines != [] && ParseHeader(lines[0]).Success? ==>
      (r.Failure? <==> ApplyLines(map[], map[], lines[1..]).Failure?)
    ensures r.Success? ==> lines != [] && ParseHeader(lines[0]) == Success((r.value.cpus, r.value.memory, r.value.disks))
  {
    if lines == [] then Failure(EmptyFile)
    else
      match ParseHeader(lines[0])
      case Failure(err) => Failure(err)
      case Success(pool) =>
        match ApplyLines(map[], map[], lines[1..])
        case Failure(err) => Failure(err)
        case Success(maps) => Success(ConfigData(pool.0, pool.1, pool.2, maps.0, maps.1))
  }

  /** After a good header, the file's outcome is that of its task lines. */
  lemma ParseFileAfterHeader(lines: seq<string>)
    requires lines != [] && ParseHeader(lines[0]).Success?
    ensures var pool := ParseHeader(lines[0]).value; var body := ApplyLines(map[], map[], lines[1..]);
      && (ParseFile(lines).Failure? <==> body.Failure?)
      && (body.Failure? ==> ParseFile(lines).error == body.error)
      && (body.Success? ==> ParseFile(lines).value == ConfigData(pool.0, pool.1, pool.2, body.value.0, body.value.1))
  {
  }

  /** Line i is not blank and does not parse. */
  predicate BadLine(lines: seq<string>, i: int) {
    0 <= i < |lines| && Trim(lines[i]) != [] && ParseTaskLine(Trim(lines[i])).Failure?
  }

  /**
   * The task lines fail exactly when some non-blank line does not parse, and the error is that of
   * such a line.
   */
  lemma {:induction false} ApplyLinesFailure(
    tasks: map<string, Task>, depNames: map<string, seq<string>>, lines: seq<string>)
    ensures ApplyLines(tasks, depNames, lines).Failure? <==> exists i :: BadLine(lines, i)
    ensures ApplyLines(tasks, depNames, lines).Failure? ==> exists i ::
      BadLine(lines, i) && ParseTaskLine(Trim(lines[i])).error == ApplyLines(tasks, depNames, lines).error
    decreases |lines|
  {
    if lines != [] {
      var trimmed := Trim(lines[0]);
      if trimmed != [] && ParseTaskLine(trimmed).Failure? {
        assert BadLine(lines, 0);
      } else {
        var next := if trimmed == [] then (tasks, depNames) else Define(tasks, depNames, ParseTaskLine(trimmed).value);
        assert ApplyLines(tasks, depNames, lines) == ApplyLines(next.0, next.1, lines[1..]);
        ApplyLinesFailure(next.0, next.1, lines[1..]);
        ShiftBadLines(lines);
      }
    }
  }

  /** When line 0 is fine, the bad lines are those of the rest, shifted by one. */
  lemma ShiftBadLines(lines: seq<string>)
    requires lines != [] && !BadLine(lines, 0)
    ensures (exists i :: BadLine(lines, i)) <==> exists j :: BadLine(lines[1..], j)
    ensures forall j | BadLine(lines[1..], j) :: BadLine(lines, j + 1) && lines[j + 1] == lines[1..][j]
  {
    if exists i :: BadLine(lines, i) {
      var i :| BadLine(lines, i);
      assert BadLine(lines[1..], i - 1);
    }
    forall j | BadLine(lines[1..], j) ensures BadLine(lines, j + 1) && lines[j + 1] == lines[1..][j] {
      assert lines[j + 1] == lines[1..][j];
    }
  }

  lemma {:induction false} ApplyLinesKeepsInvariant(
    tasks: map<string, Task>, depNames: map<string, seq<string>>, lines: seq<string>)
    requires ConfigInvariant(tasks, depNames)
    ensures ApplyLines(tasks, depNames, lines).Success? ==>
      ConfigInvariant(ApplyLines(tasks, depNames, lines).value.0, ApplyLines(tasks, depNames, lines).value.1)
    decreases |lines|
  {
    if lines != [] {
      var trimmed := Trim(lines[0]);
      if trimmed == [] {
        ApplyLinesKeepsInvariant(tasks, depNames, lines[1..]);
      } else if ParseTaskLine(trimmed).Success? {
        var e := ParseTaskLine(trimmed).value;
        DefineKeepsInvariant(tasks, depNames, e);
        var r := Define(tasks, depNames, e);
        ApplyLinesKeepsInvariant(r.0, r.1, lines[1..]);
      }
    }
  }

  /** Every configuration fromFile returns satisfies the invariant. */
  lemma ParsedFileKeepsInvariant(lines: seq<string>)
    ensures ParseFile(lines).Success? ==>
      ConfigInvariant(ParseFile(lines).value.nameToTask, ParseFile(lines).value.nameToDepNames)
  {
    if lines != [] {
      ApplyLinesKeepsInvariant(map[], map[], lines[1..]);
    }
  }

  /** A map whose values are named after their keys has as many distinct values as keys. */
  lemma {:induction false} NamedValuesCount(m: map<string, Task>)
    requires forall n | n in m :: m[n].name == n
    ensures |set n | n in m :: m[n]| == |m|
    decreases |m|
  {
    if m != map[] {
      var k :| k in m;
      var rest := m - {k};
      NamedValuesCount(rest);
      var all := set n | n in m :: m[n];
      var others := set n | n in rest :: rest[n];
      forall t ensures t in all <==> t in others || t == m[k] {
        if t in all {
          var n :| n in m && m[n] == t;
          if n != k { assert n in rest; }
        }
        if t in others {
          var n :| n in rest && rest[n] == t;
          assert n in m;
        }
      }
      assert all == others + {m[k]};
      assert m[k] !in others;
      assert |rest| == |m| - 1 by {
        assert rest.Keys == m.Keys - {k};
      }
    }
  }

  /** The tasks of a name-to-task map. */
  function TasksOf(tasks: map<string, Task>): set<Task> {
    set n | n in tasks :: tasks[n]
  }

  /** The tasks the dependency names of t stand for, when t's name has an entry. */
  function DependenciesOf(tasks: map<string, Task>, depNames: map<string, seq<string>>, t: Task): Option<set<Task>>
    requires ConfigInvariant(tasks, depNames)
  {
    if t.name !in depNames then None
    else
      var ds := depNames[t.name];
      Some(set i | 0 <= i < |ds| :: tasks[ds[i]])
  }

  // ---------------------------------------------------------------- the class

  class Configuration {
    var cpus: int
    var memory: int
    var disks: int
    var nameToTask: map<string, Task>
    var nameToDepNames: map<string, seq<string>>

    ghost predicate Valid()
      reads this
    {
      ConfigInvariant(nameToTask, nameToDepNames)
    }

    function Data(): ConfigData
      reads this
    {
      ConfigData(cpus, memory, disks, nameToTask, nameToDepNames)
    }

    constructor ()
      ensures Valid()
      ensures Data() == ConfigData(0, 0, 0, map[], map[])
    {
      cpus, memory, disks := 0, 0, 0;
      nameToTask := map[];
      nameToDepNames := map[];
    }

    /**
     * fromFile, given the lines of the file: the header sets the pool, every non-blank trimmed
     * line after it goes through parseLine, and the first exception ends the parse.
     */
    static method FromLines(lines: seq<string>) returns (r: Result<Configuration, ParseError>)
      ensures r.Failure? <==> ParseFile(lines).Failure?
      ensures r.Failure? ==> r.error == ParseFile(lines).error
      ensures r.Success? ==> fresh(r.value) && r.value.Valid() && r.value.Data() == ParseFile(lines).value
    {
      if lines == [] {
        return Failure(EmptyFile);
      }
      var header := ParseHeader(lines[0]);
      if header.Failure? {
        return Failure(header.error);
      }
      ParseFileAfterHeader(lines);
      var c := new Configuration();
      c.SetCpus(header.value.0);
      c.SetMemory(header.value.1);
      c.SetDisks(header.value.2);
      var err := c.ParseLines(lines[1..]);
      if err.Some? {
        return Failure(err.value);
      }
      return Success(c);
    }

    /** setCpus: only the cpu pool changes. */
    method SetCpus(n: int)
      requires Valid()
      modifies this
      ensures Valid()
      ensures Data() == old(Data()).(cpus := n)
    {
      cpus := n;
    }

    /** setMemory: only the memory pool changes. */
    method SetMemory(n: int)
      requires Valid()
      modifies this
      ensures Valid()
      ensures Data() == old(Data()).(memory := n)
    {
      memory := n;
    }

    /** setDisks: only the disk pool changes. */
    method SetDisks(n: int)
      requires Valid()
      modifies this
      ensures Valid()
      ensures Data() == old(Data()).(disks := n)
    {
      disks := n;
    }

    /**
     * The loop of fromFile over the lines after the header: each is trimmed, a blank one is
     * skipped, the others go through parseLine, and the first exception ends the loop.
     */
    method ParseLines(body: seq<string>) returns (err: Option<ParseError>)
      requires Valid()
      modifies this
      ensures Valid()
      ensures cpus == old(cpus) && memory == old(memory) && disks == old(disks)
      ensures err.Some? <==> ApplyLines(old(nameToTask), old(nameToDepNames), body).Failure?
      ensures err.Some? ==> err.value == ApplyLines(old(nameToTask), old(nameToDepNames), body).error
      ensures err.None? ==> (nameToTask, nameToDepNames) == ApplyLines(old(nameToTask), old(nameToDepNames), body).value
    {
      for i := 0 to |body|
        invariant Valid()
        invariant cpus == old(cpus) && memory == old(memory) && disks == old(disks)
        invariant ApplyLines(nameToTask, nameToDepNames, body[i..]) == ApplyLines(old(nameToTask), old(nameToDepNames), body)
      {
        ApplyLinesStep(nameToTask, nameToDepNames, body, i);
        var trimmed := Trim(body[i]);
        if trimmed != [] {
          err := ParseLine(trimmed);
          if err.Some? {
            return;
          }
        }
      }
      assert body[|body|..] == [];
      return None;
    }

    /**
     * parseLine: on a malformed line the exception leaves the maps as they were; otherwise the
     * maps become Define of the old maps and the parsed line.
     */
    method ParseLine(line: string) returns (err: Option<ParseError>)
      requires Valid()
      modifies this
      ensures Valid()
      ensures cpus == old(cpus) && memory == old(memory) && disks == old(disks)
      ensures err.Some? <==> ParseTaskLine(line).Failure?
      ensures err.Some? ==> err.value == ParseTaskLine(line).error
      ensures err.Some? ==> nameToTask == old(nameToTask) && nameToDepNames == old(nameToDepNames)
      ensures err.None? ==>
        (nameToTask, nameToDepNames) == Define(old(nameToTask), old(nameToDepNames), ParseTaskLine(line).value)
    {
      var parsed := ParseTaskLine(line);
      if parsed.Failure? {
        return Some(parsed.error);
      }
      var e := parsed.value;
      DefineKeepsInvariant(nameToTask, nameToDepNames, e);
      nameToTask := nameToTask[e.name := LineTask(e)];
      PutDefaultDependencies(e.deps);
      nameToDepNames := nameToDepNames[e.name := e.deps];
      return None;
    }

    /** The putIfAbsent loop of parseLine over the dependency names. */
    method PutDefaultDependencies(ds: seq<string>)
      modifies this
      ensures cpus == old(cpus) && memory == old(memory) && disks == old(disks)
      ensures (nameToTask, nameToDepNames) == PutDefaults(old(nameToTask), old(nameToDepNames), ds)
    {
      for i := 0 to |ds|
        invariant cpus == old(cpus) && memory == old(memory) && disks == old(disks)
        invariant PutDefaults(nameToTask, nameToDepNames, ds[i..]) == PutDefaults(old(nameToTask), old(nameToDepNames), ds)
      {
        var d := ds[i];
        assert ds[i..][0] == d && ds[i..][1..] == ds[i + 1..];
        if d !in nameToTask {
          nameToTask := nameToTask[d := DefaultTask(d)];
        }
        if d !in nameToDepNames {
          nameToDepNames := nameToDepNames[d := []];
        }
      }
      assert ds[|ds|..] == [];
    }

    /** getTask: the task of that name, if any. */
    function GetTask(name: string): (r: Option<Task>)
      reads this
      requires Valid()
      ensures r.Some? <==> name in nameToTask
      ensures r.Some? ==> r.value.name == name && r.value in GetTasks()
    {
      if name in nameToTask then Some(nameToTask[name]) else None
    }

    /** getTasks: exactly one task per configured name. */
    function GetTasks(): (r: set<Task>)
      reads this
      requires Valid()
      ensures forall t :: t in r <==> t.name in nameToTask && nameToTask[t.name] == t
    {
      TasksOf(nameToTask)
    }

    /** getTasks has one task per configured name. */
    lemma TaskCount()
      requires Valid()
      ensures |GetTasks()| == |nameToTask|
    {
      NamedValuesCount(nameToTask);
    }

    /**
     * getDepenciesOf: the current task of each dependency name of the task's name; a name
     * without an entry makes Java dereference null.
     */
    function GetDepenciesOf(t: Task): (r: Option<set<Task>>)
      reads this
      requires Valid()
      ensures r.Some? <==> t.name in nameToDepNames
      ensures r.Some? ==> r.value <= GetTasks()
      ensures r.Some? ==> forall u :: u in r.value <==> u in GetTasks() && u.name in nameToDepNames[t.name]
    {
      DependenciesOf(nameToTask, nameToDepNames, t)
    }
  }
}
