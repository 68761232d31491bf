/**
 * The string handling of Configuration.fromFile and Configuration.parseLine, with the Java
 * library calls it relies on written out: String.replaceAll of the separators, String.split on
 * "\\s+" and on ",\\s" (including split's rule that trailing empty strings are dropped),
 * String.trim and Integer.parseInt.
 */
module Tokens {
  import opened Wrappers

  /** The characters of the regular-expression class \s. */
  predicate IsWhitespace(c: char) {
    c == ' ' || c == '\t' || c == '\n' || c == '\r' || c as int == 11 || c as int == 12
  }

  /** The characters parseLine replaces by a space: `,`, `(`, `)` and `:`. */
  predicate IsSeparator(c: char) {
    c == ',' || c == '(' || c == ')' || c == ':'
  }

  predicate NoWhitespace(s: string) {
    forall i | 0 <= i < |s| :: !IsWhitespace(s[i])
  }

  predicate NoSeparator(s: string) {
    forall i | 0 <= i < |s| :: !IsSeparator(s[i])
  }

  /** A token as the tokeniser can produce it: non-empty, without whitespace or separators. */
  predicate IsWord(s: string) {
    s != [] && forall i | 0 <= i < |s| :: !IsWhitespace(s[i]) && !IsSeparator(s[i])
  }

  /** line.replaceAll(",|\\(|\\)|:", " ") */
  function Normalize(line: string): (r: string)
    ensures |r| == |line|
    ensures NoSeparator(r)
    ensures forall i | 0 <= i < |r| && !IsSeparator(line[i]) :: r[i] == line[i]
  {
    seq(|line|, i requires 0 <= i < |line| => if IsSeparator(line[i]) then ' ' else line[i])
  }

  /** Length of the longest prefix of s without whitespace. */
  function WordEnd(s: string): (n: nat)
    ensures n <= |s|
    ensures forall i | 0 <= i < n :: !IsWhitespace(s[i])
    ensures n < |s| ==> IsWhitespace(s[n])
    ensures s != [] && !IsWhitespace(s[0]) ==> n >= 1
  {
    if s == [] || IsWhitespace(s[0]) then 0 else 1 + WordEnd(s[1..])
  }

  /** Length of the longest prefix of s made of whitespace. */
  function RunEnd(s: string): (n: nat)
    ensures n <= |s|
    ensures forall i | 0 <= i < n :: IsWhitespace(s[i])
    ensures n < |s| ==> !IsWhitespace(s[n])
  {
    if s == [] || !IsWhitespace(s[0]) then 0 else 1 + RunEnd(s[1..])
  }

  /**
   * The pieces of s between maximal runs of whitespace. The first piece is empty when s starts
   * with whitespace and the last one when s ends with whitespace; every other piece is a
   * non-empty run of non-whitespace characters.
   */
  function Pieces(s: string): (r: seq<string>)
    ensures |r| >= 1
    ensures forall i | 0 <= i < |r| :: NoWhitespace(r[i])
    decreases |s|
  {
    var w := WordEnd(s);
    if w == |s| then [s]
    else
      var rest := s[w..];
      var k := RunEnd(rest);
      assert k >= 1;
      [s[..w]] + Pieces(rest[k..])
  }

  /** The first piece is not empty when s starts with a word. */
  lemma PiecesStartWithWord(s: string)
    requires s != [] && !IsWhitespace(s[0])
    ensures Pieces(s)[0] != []
  {
    var w := WordEnd(s);
    if w < |s| {
      assert Pieces(s)[0] == s[..w];
    }
  }

  /** Every element of r other than the first and the last is non-empty. */
  predicate InnerNonEmpty(r: seq<string>) {
    forall i | 0 < i < |r| - 1 :: r[i] != []
  }

  lemma ConsInnerNonEmpty(a: string, r: seq<string>)
    requires InnerNonEmpty(r) && (|r| <= 1 || r[0] != [])
    ensures InnerNonEmpty([a] + r)
  {
    forall i | 0 < i < |[a] + r| - 1 ensures ([a] + r)[i] != [] {
      assert ([a] + r)[i] == r[i - 1];
    }
  }

  /** Only the first and the last piece can be empty. */
  lemma {:induction false} PiecesNonEmpty(s: string)
    ensures InnerNonEmpty(Pieces(s))
    decreases |s|
  {
    var w := WordEnd(s);
    if w < |s| {
      var rest := s[w..];
      var k := RunEnd(rest);
      var t := rest[k..];
      assert Pieces(s) == [s[..w]] + Pieces(t);
      PiecesNonEmpty(t);
      if t != [] {
        PiecesStartWithWord(t);
      }
      ConsInnerNonEmpty(s[..w], Pieces(t));
    }
  }

  /** The pieces of a string without separators have none either. */
  lemma {:induction false} PiecesWithoutSeparators(s: string)
    requires NoSeparator(s)
    ensures forall i | 0 <= i < |Pieces(s)| :: NoSeparator(Pieces(s)[i])
    decreases |s|
  {
    var w := WordEnd(s);
    if w < |s| {
      var rest := s[w..];
      var k := RunEnd(rest);
      assert forall j | 0 <= j < |rest[k..]| :: rest[k..][j] == s[w + k + j];
      PiecesWithoutSeparators(rest[k..]);
      assert forall j | 0 <= j < w :: s[..w][j] == s[j];
    }
  }

  /** What split leaves of a result: the trailing empty strings are removed. */
  function DropTrailingEmpty(r: seq<string>): (d: seq<string>)
    ensures |d| <= |r| && d == r[..|d|]
    ensures d == [] || d[|d| - 1] != []
    ensures forall i | |d| <= i < |r| :: r[i] == []
  {
    if r != [] && r[|r| - 1] == [] then DropTrailingEmpty(r[..|r| - 1]) else r
  }

  /**
   * s.split("\\s+"): when no whitespace occurs the result is s itself; otherwise the pieces
   * between the runs, without trailing empty strings.
   */
  function SplitOnWhitespace(s: string): (r: seq<string>)
    ensures forall i | 0 <= i < |r| :: NoWhitespace(r[i])
    ensures forall i | 0 < i < |r| :: r[i] != []
    ensures NoWhitespace(s) ==> r == [s]
    ensures NoSeparator(s) ==> forall i | 0 <= i < |r| :: NoSeparator(r[i])
  {
    if NoWhitespace(s) then [s]
    else
      var p := Pieces(s);
      PiecesNonEmpty(s);
      var d := DropTrailingEmpty(p);
      assert forall i | 0 <= i < |d| :: d[i] == p[i];
      if NoSeparator(s) then PiecesWithoutSeparators(s); d else d
  }

  /** The words of ws separated by single spaces. */
  function JoinWords(ws: seq<string>): string
    requires |ws| >= 1
  {
    if |ws| == 1 then ws[0] else ws[0] + " " + JoinWords(ws[1..])
  }

  /** Every character of s is whitespace (s may be empty). */
  predicate AllWhitespace(s: string) {
    forall i | 0 <= i < |s| :: IsWhitespace(s[i])
  }

  /** What "\\s+" matches: a non-empty run of whitespace. */
  predicate IsRun(g: string) {
    g != [] && AllWhitespace(g)
  }

  /** A piece split("\\s+") can return between two runs: non-empty and without whitespace. */
  predicate IsToken(w: string) {
    w != [] && NoWhitespace(w)
  }

  /** ws[0] + gaps[0] + ws[1] + ... + gaps[|ws| - 2] + ws[|ws| - 1] */
  function Spaced(ws: seq<string>, gaps: seq<string>): string
    requires |ws| >= 1 && |gaps| == |ws| - 1
  {
    if |ws| == 1 then ws[0] else ws[0] + gaps[0] + Spaced(ws[1..], gaps[1..])
  }

  /** n single spaces, the gaps of JoinWords. */
  function Spaces(n: nat): (r: seq<string>)
    ensures |r| == n && forall i | 0 <= i < n :: r[i] == " "
  {
    seq(n, _ => " ")
  }

  lemma {:induction false} JoinWordsIsSpaced(ws: seq<string>)
    requires |ws| >= 1
    ensures JoinWords(ws) == Spaced(ws, Spaces(|ws| - 1))
    decreases |ws|
  {
    if |ws| > 1 {
      JoinWordsIsSpaced(ws[1..]);
      assert Spaces(|ws| - 1)[1..] == Spaces(|ws| - 2);
    }
  }

  lemma SpacedStart(ws: seq<string>, gaps: seq<string>)
    requires |ws| >= 1 && |gaps| == |ws| - 1 && ws[0] != []
    ensures Spaced(ws, gaps) != [] && Spaced(ws, gaps)[0] == ws[0][0]
  {
  }

  lemma SpacedCons(ws: seq<string>, gaps: seq<string>)
    requires |ws| > 1 && |gaps| == |ws| - 1
    ensures Spaced(ws, gaps) == ws[0] + gaps[0] + Spaced(ws[1..], gaps[1..])
  {
  }

  /** Unfolds one gap of Spaced followed by a trail. */
  lemma SpacedThen(ws: seq<string>, gaps: seq<string>, trail: string)
    requires |ws| > 1 && |gaps| == |ws| - 1
    ensures Spaced(ws, gaps) + trail == ws[0] + gaps[0] + (Spaced(ws[1..], gaps[1..]) + trail)
  {
  }

  /** The word w ends where the whitespace that follows it starts. */
  lemma {:induction false} WordEndBefore(w: string, t: string)
    requires NoWhitespace(w) && (t == [] || IsWhitespace(t[0]))
    ensures WordEnd(w + t) == |w|
  {
    if w != [] {
      assert (w + t)[1..] == w[1..] + t;
      WordEndBefore(w[1..], t);
    }
  }

  /** The run g ends where the non-whitespace that follows it starts. */
  lemma {:induction false} RunEndBefore(g: string, t: string)
    requires AllWhitespace(g) && (t == [] || !IsWhitespace(t[0]))
    ensures RunEnd(g + t) == |g|
  {
    if g != [] {
      assert (g + t)[1..] == g[1..] + t;
      RunEndBefore(g[1..], t);
    }
  }

  /** A word followed by a run: the word is the first piece and splitting goes on after the run. */
  lemma PiecesStep(w: string, g: string, t: string)
    requires NoWhitespace(w) && IsRun(g) && (t == [] || !IsWhitespace(t[0]))
    ensures Pieces(w + g + t) == [w] + Pieces(t)
  {
    var s := w + g + t;
    assert s == w + (g + t);
    WordEndBefore(w, g + t);
    assert s[|w|..] == g + t;
    RunEndBefore(g, t);
    assert (g + t)[|g|..] == t;
    assert s[..|w|] == w;
  }

  lemma PiecesOfToken(w: string)
    requires NoWhitespace(w)
    ensures Pieces(w) == [w]
  {
    WordEndBefore(w, []);
    assert w + [] == w;
  }

  /** The pieces of tokens separated by runs, then a possibly empty trailing run. */
  lemma {:induction false} PiecesOfSpaced(ws: seq<string>, gaps: seq<string>, trail: string)
    requires |ws| >= 1 && |gaps| == |ws| - 1
    requires forall i | 0 <= i < |ws| :: IsToken(ws[i])
    requires forall i | 0 <= i < |gaps| :: IsRun(gaps[i])
    requires AllWhitespace(trail)
    ensures Pieces(Spaced(ws, gaps) + trail) == ws + (if trail == [] then [] else [[]])
    decreases |ws|
  {
    var w := ws[0];
    assert IsToken(w);
    if |ws| == 1 {
      if trail == [] {
        PiecesOfToken(w);
        assert Spaced(ws, gaps) + trail == w;
      } else {
        PiecesStep(w, trail, []);
        assert Spaced(ws, gaps) + trail == w + trail + [];
        assert Pieces([]) == [[]];
      }
    } else {
      var ws', gaps' := ws[1..], gaps[1..];
      assert forall i | 0 <= i < |ws'| :: ws'[i] == ws[i + 1];
      assert forall i | 0 <= i < |gaps'| :: gaps'[i] == gaps[i + 1];
      PiecesOfSpaced(ws', gaps', trail);
      assert IsRun(gaps[0]);
      PiecesSpacedStep(ws, gaps, trail, if trail == [] then [] else [[]]);
    }
  }

  lemma PiecesSpacedStep(ws: seq<string>, gaps: seq<string>, trail: string, tail: seq<string>)
    requires |ws| > 1 && |gaps| == |ws| - 1 && IsToken(ws[0]) && IsToken(ws[1]) && IsRun(gaps[0])
    requires Pieces(Spaced(ws[1..], gaps[1..]) + trail) == ws[1..] + tail
    ensures Pieces(Spaced(ws, gaps) + trail) == ws + tail
  {
    var rest := Spaced(ws[1..], gaps[1..]);
    var t := rest + trail;
    SpacedStart(ws[1..], gaps[1..]);
    assert t[0] == rest[0];
    PiecesStep(ws[0], gaps[0], t);
    SpacedThen(ws, gaps, trail);
    assert ws == [ws[0]] + ws[1..];
    Associate([ws[0]], ws[1..], tail);
  }

  /** A leading run, here s[..k], contributes one empty piece. */
  lemma PiecesAfterLead(s: string, k: nat)
    requires 0 < k < |s| && AllWhitespace(s[..k]) && !IsWhitespace(s[k])
    ensures Pieces(s) == [[]] + Pieces(s[k..])
  {
    assert s[..k][0] == s[0];
    assert WordEnd(s) == 0;
    RunEndBefore(s[..k], s[k..]);
    assert s[..k] + s[k..] == s;
    assert s[0..] == s;
  }

  /**
   * split("\\s+") of tokens separated by arbitrary runs of whitespace, with optional runs before
   * and after: the tokens, preceded by one empty string when the text starts with a run; the
   * trailing run leaves nothing.
   */
  lemma SplitSpaced(lead: string, ws: seq<string>, gaps: seq<string>, trail: string)
    requires |ws| >= 1 && |gaps| == |ws| - 1
    requires forall i | 0 <= i < |ws| :: IsToken(ws[i])
    requires forall i | 0 <= i < |gaps| :: IsRun(gaps[i])
    requires AllWhitespace(lead) && AllWhitespace(trail)
    ensures SplitOnWhitespace(lead + Spaced(ws, gaps) + trail) == (if lead == [] then [] else [[]]) + ws
  {
    Associate(lead, Spaced(ws, gaps), trail);
    SpacedAfterLead(lead, ws, gaps, trail);
    SplitAround(lead + (Spaced(ws, gaps) + trail), |lead|, ws, trail != []);
  }

  /** What SplitAround needs to know of lead + Spaced(ws, gaps) + trail. */
  lemma SpacedAfterLead(lead: string, ws: seq<string>, gaps: seq<string>, trail: string)
    requires |ws| >= 1 && |gaps| == |ws| - 1
    requires forall i | 0 <= i < |ws| :: IsToken(ws[i])
    requires forall i | 0 <= i < |gaps| :: IsRun(gaps[i])
    requires AllWhitespace(lead) && AllWhitespace(trail)
    ensures var s := lead + (Spaced(ws, gaps) + trail);
      && |lead| < |s| && AllWhitespace(s[..|lead|]) && !IsWhitespace(s[|lead|])
      && ws[|ws| - 1] != []
      && Pieces(s[|lead|..]) == ws + (if trail != [] then [[]] else [])
  {
    var x := Spaced(ws, gaps) + trail;
    PiecesOfSpaced(ws, gaps, trail);
    SpacedStart(ws, gaps);
    AppendParts(lead, x);
    assert (lead + x)[|lead|] == x[0];
    assert IsToken(ws[|ws| - 1]);
  }

  lemma AppendEmpty<T>(a: seq<T>)
    ensures [] + a + [] == a && [] + a == a
  {
  }

  lemma AppendParts<T>(a: seq<T>, b: seq<T>)
    ensures (a + b)[..|a|] == a && (a + b)[|a|..] == b
  {
  }

  /** split("\\s+") of a text whose pieces after a leading run s[..k] are known. */
  lemma SplitAround(s: string, k: nat, ws: seq<string>, trailing: bool)
    requires k < |s| && AllWhitespace(s[..k]) && !IsWhitespace(s[k])
    requires ws != [] && ws[|ws| - 1] != []
    requires Pieces(s[k..]) == ws + (if trailing then [[]] else [])
    ensures SplitOnWhitespace(s) == (if k == 0 then [] else [[]]) + ws
  {
    var tail: seq<string> := if trailing then [[]] else [];
    if k > 0 {
      PiecesAfterLead(s, k);
      SplitOfLeadPieces(s, ws, tail);
    } else {
      assert s[k..] == s;
      SplitOfPieces(s, ws, tail);
    }
  }

  /** split("\\s+") drops at most one trailing empty piece after a non-empty one. */
  lemma SplitOfPieces(s: string, a: seq<string>, tail: seq<string>)
    requires a != [] && a[|a| - 1] != [] && (tail == [] || tail == [[]])
    requires Pieces(s) == a + tail
    ensures SplitOnWhitespace(s) == a
  {
    if NoWhitespace(s) {
      PiecesOfToken(s);
      assert |a + tail| == 1;
      assert a + tail == a;
    } else {
      DropTrailingAfter(a, tail);
    }
  }

  lemma SplitOfLeadPieces(s: string, a: seq<string>, tail: seq<string>)
    requires a != [] && a[|a| - 1] != [] && (tail == [] || tail == [[]])
    requires Pieces(s) == [[]] + (a + tail)
    ensures SplitOnWhitespace(s) == [[]] + a
  {
    Associate([[]], a, tail);
    assert ([[]] + a)[|a|] == a[|a| - 1];
    SplitOfPieces(s, [[]] + a, tail);
  }

  lemma Associate<T>(a: seq<T>, b: seq<T>, c: seq<T>)
    ensures a + (b + c) == (a + b) + c
  {
  }

  lemma DropTrailingAfter(a: seq<string>, tail: seq<string>)
    requires a != [] && a[|a| - 1] != [] && (tail == [] || tail == [[]])
    ensures DropTrailingEmpty(a + tail) == a
  {
    if tail != [] {
      assert (a + tail)[..|a|] == a;
    } else {
      assert a + tail == a;
    }
  }

  /** Round trip of the tokeniser: split(join(ws)) == ws for tokens ws. */
  lemma SplitJoinedWords(ws: seq<string>)
    requires |ws| >= 1 && forall i | 0 <= i < |ws| :: IsWord(ws[i])
    ensures SplitOnWhitespace(JoinWords(ws)) == ws
  {
    JoinWordsIsSpaced(ws);
    var gaps := Spaces(|ws| - 1);
    assert forall i | 0 <= i < |gaps| :: IsRun(gaps[i]);
    SplitSpaced([], ws, gaps, []);
    AppendEmpty(Spaced(ws, gaps));
    AppendEmpty(ws);
  }

  // ---------------------------------------------------------------- String.split(",\\s")

  /** No comma in s is followed by a whitespace character: ",\\s" does not match. */
  predicate NoCommaWs(s: string) {
    forall i | 0 <= i < |s| - 1 :: !(s[i] == ',' && IsWhitespace(s[i + 1]))
  }

  /** Position of the first ",\\s" match (a comma followed by one whitespace character), if any. */
  function CommaWsAt(s: string): (n: nat)
    ensures n <= |s|
    ensures n < |s| ==> n + 1 < |s| && s[n] == ',' && IsWhitespace(s[n + 1])
    ensures forall i | 0 <= i < n && i + 1 < |s| :: !(s[i] == ',' && IsWhitespace(s[i + 1]))
    ensures n == |s| <==> NoCommaWs(s)
  {
    if |s| < 2 then |s|
    else if s[0] == ',' && IsWhitespace(s[1]) then 0
    else
      var n := CommaWsAt(s[1..]);
      if n == |s| - 1 then |s| else n + 1
  }

  /** The pieces of s between the ",\\s" matches, trailing empty ones included. */
  function CommaPieces(s: string): (r: seq<string>)
    ensures |r| >= 1
    ensures forall i | 0 <= i < |r| :: NoCommaWs(r[i])
    ensures NoCommaWs(s) ==> r == [s]
    decreases |s|
  {
    var n := CommaWsAt(s);
    if n == |s| then [s]
    else
      assert forall i | 0 <= i < n :: s[..n][i] == s[i];
      [s[..n]] + CommaPieces(s[n + 2..])
  }

  /** s.split(",\\s") */
  function SplitOnCommaWs(s: string): (r: seq<string>)
    ensures forall i | 0 <= i < |r| :: NoCommaWs(r[i])
    ensures NoCommaWs(s) ==> r == [s]
  {
    if CommaWsAt(s) == |s| then [s]
    else
      var p := CommaPieces(s);
      var d := DropTrailingEmpty(p);
      assert forall i | 0 <= i < |d| :: d[i] == p[i];
      d
  }

  /** The fields fs joined by ", ". */
  function JoinCommaSpace(fs: seq<string>): string
    requires |fs| >= 1
  {
    if |fs| == 1 then fs[0] else fs[0] + (", " + JoinCommaSpace(fs[1..]))
  }

  /** The first ",\\s" match of a + ", " + t is the one after a. */
  lemma CommaWsAtJoin(a: string, t: string)
    requires NoCommaWs(a)
    ensures CommaWsAt(a + (", " + t)) == |a|
  {
    var s := a + (", " + t);
    var n := CommaWsAt(s);
    assert s[|a|] == ',' && s[|a| + 1] == ' ';
  }

  /** A field without a match, then ", ": the field is the first piece and splitting goes on after. */
  lemma CommaPiecesStep(a: string, t: string)
    requires NoCommaWs(a)
    ensures CommaPieces(a + (", " + t)) == [a] + CommaPieces(t)
  {
    var s := a + (", " + t);
    CommaWsAtJoin(a, t);
    AppendParts(a, ", " + t);
    assert s[|a| + 2..] == t;
  }

  lemma {:induction false} CommaPiecesOfJoin(fs: seq<string>)
    requires |fs| >= 1 && forall i | 0 <= i < |fs| :: NoCommaWs(fs[i])
    ensures CommaPieces(JoinCommaSpace(fs)) == fs
    decreases |fs|
  {
    if |fs| > 1 {
      assert NoCommaWs(fs[0]);
      CommaPiecesStep(fs[0], JoinCommaSpace(fs[1..]));
      assert forall i | 0 <= i < |fs[1..]| :: fs[1..][i] == fs[i + 1];
      CommaPiecesOfJoin(fs[1..]);
      assert fs == [fs[0]] + fs[1..];
    }
  }

  /**
   * Round trip of split(",\\s"): fields without a ",\\s" match, joined by ", ", split back into
   * the same fields when the last one is not empty.
   */
  lemma SplitJoinedFields(fs: seq<string>)
    requires |fs| >= 1 && forall i | 0 <= i < |fs| :: NoCommaWs(fs[i])
    requires fs[|fs| - 1] != []
    ensures SplitOnCommaWs(JoinCommaSpace(fs)) == fs
  {
    var s := JoinCommaSpace(fs);
    if |fs| > 1 {
      CommaWsAtJoin(fs[0], JoinCommaSpace(fs[1..]));
      assert CommaWsAt(s) < |s|;
      CommaPiecesOfJoin(fs);
    }
  }

  // ---------------------------------------------------------------- String.trim

  /** What String.trim drops at either end: a character whose code is at most U+0020. */
  predicate IsBlank(c: char) {
    c as int <= 32
  }

  /** Index of the first character that is not blank, |s| when there is none. */
  function TrimFrom(s: string): (st: nat)
    ensures st <= |s|
    ensures forall i | 0 <= i < st :: IsBlank(s[i])
    ensures st < |s| ==> !IsBlank(s[st])
  {
    if s != [] && IsBlank(s[0]) then 1 + TrimFrom(s[1..]) else 0
  }

  /** One past the last character that is not blank, 0 when there is none. */
  function TrimTo(s: string): (len: nat)
    ensures len <= |s|
    ensures forall i | len <= i < |s| :: IsBlank(s[i])
    ensures len > 0 ==> !IsBlank(s[len - 1])
  {
    if s != [] && IsBlank(s[|s| - 1]) then TrimTo(s[..|s| - 1]) else |s|
  }

  /**
   * String.trim: the part of s left once every blank character at either end is dropped; it is
   * empty or starts and ends with a character that is not blank.
   */
  function Trim(s: string): (r: string)
    ensures var k := TrimFrom(s);
      && k + |r| <= |s| && r == s[k..k + |r|]
      && (forall i | 0 <= i < k :: IsBlank(s[i]))
      && (forall i | k + |r| <= i < |s| :: IsBlank(s[i]))
    ensures r == [] || (!IsBlank(r[0]) && !IsBlank(r[|r| - 1]))
  {
    var st := TrimFrom(s);
    if st == |s| then
      var r: string := [];
      assert r == s[st..st + |r|];
      r
    else
      var len := TrimTo(s);
      assert st < len;
      var r := s[st..len];
      assert r == s[st..st + |r|];
      r
  }

  // ---------------------------------------------------------------- Integer.parseInt

  const IntMin: int := -0x8000_0000
  const IntMax: int := 0x7FFF_FFFF

  predicate IsDigit(c: char) {
    '0' <= c <= '9'
  }

  predicate AllDigits(s: string) {
    forall i | 0 <= i < |s| :: IsDigit(s[i])
  }

  /** The value of a string of decimal digits, most significant first. */
  function DigitsValue(s: string): nat
    requires AllDigits(s)
  {
    if s == [] then 0 else DigitsValue(s[..|s| - 1]) * 10 + (s[|s| - 1] as int - '0' as int)
  }

  /**
   * Integer.parseInt: an optional sign, then at least one decimal digit, and a value within the
   * 32-bit range; anything else is a NumberFormatException, modelled as None.
   */
  function ParseInt(s: string): (r: Option<int>)
    ensures r.Some? ==> IntMin <= r.value <= IntMax
    ensures r.Some? ==> s != [] && (IsDigit(s[0]) || s[0] == '-' || s[0] == '+')
  {
    if s == [] then None
    else
      var digits := if s[0] == '-' || s[0] == '+' then s[1..] else s;
      if digits == [] || !AllDigits(digits) then None
      else
        var v: int := if s[0] == '-' then -(DigitsValue(digits) as int) else DigitsValue(digits);
        if IntMin <= v <= IntMax then Some(v) else None
  }

  /**
   * What parseInt accepts: one or more decimal digits, optionally after a '+' or '-', whose
   * signed value lies in the 32-bit range; the result is that value.
   */
  lemma ParseIntMeaning(s: string)
    ensures ParseInt(s).Some? <==>
      || (s != [] && AllDigits(s) && DigitsValue(s) <= IntMax)
      || (|s| >= 2 && s[0] == '+' && AllDigits(s[1..]) && DigitsValue(s[1..]) <= IntMax)
      || (|s| >= 2 && s[0] == '-' && AllDigits(s[1..]) && DigitsValue(s[1..]) <= -IntMin)
    ensures ParseInt(s).Some? && IsDigit(s[0]) ==> ParseInt(s).value == DigitsValue(s)
    ensures ParseInt(s).Some? && s[0] == '+' ==> ParseInt(s).value == DigitsValue(s[1..])
    ensures ParseInt(s).Some? && s[0] == '-' ==> ParseInt(s).value == -(DigitsValue(s[1..]) as int)
  {
  }

  /** A leading zero does not change the value of a digit string. */
  lemma {:induction false} LeadingZero(d: string)
    requires AllDigits(d)
    ensures AllDigits("0" + d) && DigitsValue("0" + d) == DigitsValue(d)
    decreases |d|
  {
    var z := "0" + d;
    assert forall i | 0 <= i < |z| :: z[i] == if i == 0 then '0' else d[i - 1];
    if d != [] {
      assert z[..|z| - 1] == "0" + d[..|d| - 1];
      LeadingZero(d[..|d| - 1]);
    }
  }

  /** parseInt accepts leading zeros and an explicit '+' sign: "007" and "+7" both give 7. */
  lemma ParseLeadingZerosAndPlus(d: string)
    requires d != [] && AllDigits(d) && DigitsValue(d) <= IntMax
    ensures ParseInt(d) == Some(DigitsValue(d))
    ensures ParseInt("0" + d) == Some(DigitsValue(d))
    ensures ParseInt("+" + d) == Some(DigitsValue(d))
  {
    LeadingZero(d);
    assert ("+" + d)[1..] == d;
  }

  /** Decimal digits of n, without leading zeros (Integer.toString for n >= 0). */
  function ShowNat(n: nat): (s: string)
    ensures s != [] && AllDigits(s)
  {
    if n < 10 then [('0' as int + n) as char]
    else ShowNat(n / 10) + [('0' as int + n % 10) as char]
  }

  /** Integer.toString */
  function ShowInt(n: int): string {
    if n < 0 then "-" + ShowNat(-n) else ShowNat(n)
  }

  lemma {:induction false} ShowNatValue(n: nat)
    ensures DigitsValue(ShowNat(n)) == n
  {
    if n >= 10 {
      var s := ShowNat(n);
      assert s[..|s| - 1] == ShowNat(n / 10);
      ShowNatValue(n / 10);
    }
  }

  /** Round trip: parseInt(toString(n)) == n for every 32-bit n. */
  lemma ParseShownInt(n: int)
    requires IntMin <= n <= IntMax
    ensures ParseInt(ShowInt(n)) == Some(n)
  {
    if n < 0 {
      ParseShownNegative(n);
    } else {
      ParseShownNat(n);
    }
  }

  lemma ParseShownNat(n: nat)
    requires n <= IntMax
    ensures ParseInt(ShowNat(n)) == Some(n)
  {
    var s := ShowNat(n);
    ShowNatValue(n);
    assert IsDigit(s[0]);
    assert s[0] != '-' && s[0] != '+';
  }

  lemma ParseShownNegative(n: int)
    requires IntMin <= n < 0
    ensures ParseInt(ShowInt(n)) == Some(n)
  {
    var digits := ShowNat(-n);
    var s := ShowInt(n);
    assert s == "-" + digits;
    assert s[0] == '-' && s[1..] == digits;
    ShowNatValue(-n);
    assert AllDigits(digits) && digits != [];
  }

  lemma ShownIntIsWord(n: int)
    ensures IsWord(ShowInt(n))
  {
    var s := ShowNat(if n < 0 then -n else n);
    assert forall i | 0 <= i < |s| :: IsDigit(s[i]);
  }
}
