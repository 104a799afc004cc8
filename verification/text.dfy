/** Strings the way Python's `str` methods see them, as far as the modelled
    scripts use them: line boundaries, white space, `strip`, `join`, `split`
    and decimal numerals. */
module Text {

  datatype Option<+T> = None | Some(value: T)

  type byte = b: int | 0 <= b < 256

  /** The boundaries of `str.splitlines`: LF, VT, FF, CR, FS, GS, RS, NEL, LS, PS. */
  predicate IsLineBreak(c: char) {
    var n := c as int;
    10 <= n <= 13 || 28 <= n <= 30 || n == 0x85 || n == 0x2028 || n == 0x2029
  }

  /** `str.isspace` on one character, which is also `\s` in a regular expression. */
  predicate IsSpace(c: char) {
    var n := c as int;
    9 <= n <= 13 || 28 <= n <= 32 || n == 0x85 || n == 0xA0 || n == 0x1680 ||
    0x2000 <= n <= 0x200A || n == 0x2028 || n == 0x2029 || n == 0x202F || n == 0x205F || n == 0x3000
  }

  predicate SingleLine(s: string) {
    forall i | 0 <= i < |s| :: !IsLineBreak(s[i])
  }

  /** Length of the line terminator at the start of `s`; CR LF is one terminator. */
  function BreakLength(s: string): (n: nat)
    requires s != "" && IsLineBreak(s[0])
    ensures 1 <= n <= 2 && n <= |s|
  {
    if |s| > 1 && s[0] == '\r' && s[1] == '\n' then 2 else 1
  }

  /** `s.splitlines()` */
  function SplitLines(s: string): (lines: seq<string>)
    ensures lines == [] <==> s == ""
  {
    if s == "" then []
    else if IsLineBreak(s[0]) then [""] + SplitLines(s[BreakLength(s)..])
    else Prefixed([s[0]], SplitLines(s[1..]))
  }

  /** `s.splitlines(keepends=True)` */
  function SplitLinesKeep(s: string): (lines: seq<string>)
    ensures lines == [] <==> s == ""
  {
    if s == "" then []
    else if IsLineBreak(s[0]) then [s[..BreakLength(s)]] + SplitLinesKeep(s[BreakLength(s)..])
    else Prefixed([s[0]], SplitLinesKeep(s[1..]))
  }

  /** Put `p` in front of the first line. */
  function Prefixed(p: string, lines: seq<string>): seq<string> {
    if lines == [] then [p] else [p + lines[0]] + lines[1..]
  }

  lemma {:induction false} LinesAreSingle(s: string)
    ensures forall i | 0 <= i < |SplitLines(s)| :: SingleLine(SplitLines(s)[i])
  {
    if s != "" {
      LinesAreSingle(s[if IsLineBreak(s[0]) then BreakLength(s) else 1..]);
    }
  }

  /** A newline always ends a line, so splitting may be done on both sides of it apart. */
  lemma {:induction false} SplitAtNewline(x: string, rest: string)
    ensures SplitLines(x + "\n" + rest) == SplitLines(x + "\n") + SplitLines(rest)
    decreases |x|
  {
    hide IsLineBreak;
    NewlineIsBreak();
    var left := x + "\n";
    var whole := left + rest;
    if x == "" {
      assert left[1..] == "" && whole[1..] == rest;
    } else {
      var n := if IsLineBreak(x[0]) then BreakLength(left) else 1;
      assert whole[0] == left[0] == x[0] && whole[1] == left[1];
      if n > |x| {
        assert left[n..] == "" && whole[n..] == rest;
      } else {
        assert left[n..] == x[n..] + "\n";
        assert whole[n..] == x[n..] + "\n" + rest;
        SplitAtNewline(x[n..], rest);
        OneStepAlong(left, n);
        OneStepAlong(whole, n);
        StepsAlike(left[0], SplitLines(left[n..]), SplitLines(rest));
      }
    }
  }

  lemma NewlineIsBreak()
    ensures IsLineBreak('\n') && IsLineBreak('\r')
  {
  }

  /** The first lines of a string, read one step further on. */
  function Further(c: char, lines: seq<string>): seq<string> {
    if IsLineBreak(c) then [""] + lines else Prefixed([c], lines)
  }

  lemma OneStepAlong(s: string, n: nat)
    requires s != "" && n == if IsLineBreak(s[0]) then BreakLength(s) else 1
    ensures SplitLines(s) == Further(s[0], SplitLines(s[n..]))
  {
  }

  lemma StepsAlike(c: char, a: seq<string>, b: seq<string>)
    requires a != []
    ensures Further(c, a + b) == Further(c, a) + b
  {
    assert (a + b)[1..] == a[1..] + b;
  }

  lemma {:induction false} SingleLineSplit(a: string)
    requires SingleLine(a)
    ensures SplitLines(a + "\n") == [a]
    ensures SplitLines(a) == if a == "" then [] else [a]
  {
    if a == "" {
      assert SplitLines("\n"[1..]) == [];
    } else {
      SingleLineSplit(a[1..]);
      assert (a + "\n")[1..] == a[1..] + "\n";
      assert [a[0]] + a[1..] == a;
      assert |a| == 1 ==> [a[0]] == a;
    }
  }

  /** A final newline does not change the lines of a string that ends inside one. */
  /** Ten characters break lines, CR LF as one, and a line stands before each break. */
  lemma {:induction false} SplitAtBreak(line: string, end: string, rest: string)
    requires SingleLine(line)
    requires end == "\r\n" || (|end| == 1 && end[0] in "\n\U{0B}\U{0C}\r\U{1C}\U{1D}\U{1E}\U{85}\U{2028}\U{2029}")
    requires end == "\r" ==> !("\n" <= rest)
    ensures SplitLines(line + end + rest) == [line] + SplitLines(rest)
    ensures !SingleLine(end)
  {
    var s := line + end + rest;
    if line == "" {
      assert end[0] == s[0];
      assert IsLineBreak(end[0]);
      assert s[|end|..] == rest;
      assert |s| > |end| ==> s[|end|] == rest[0];
    } else {
      SplitAtBreak(line[1..], end, rest);
      assert s[1..] == line[1..] + end + rest && s[0] == line[0] && !IsLineBreak(line[0]);
      assert [line[0]] + line[1..] == line;
      assert ([line[1..]] + SplitLines(rest))[1..] == SplitLines(rest);
    }
  }

  /** No other character does. */
  lemma OnlyBreaksBreak(c: char)
    requires c !in "\n\U{0B}\U{0C}\r\U{1C}\U{1D}\U{1E}\U{85}\U{2028}\U{2029}"
    ensures SplitLines([c]) == [[c]] && SingleLine([c])
  {
    assert forall d | d in "\n\U{0B}\U{0C}\r\U{1C}\U{1D}\U{1E}\U{85}\U{2028}\U{2029}" :: d != c;
  }

  lemma {:induction false} SplitUnterminated(s: string)
    requires s != "" && !IsLineBreak(s[|s| - 1])
    ensures SplitLines(s + "\n") == SplitLines(s)
    decreases |s|
  {
    var t := s + "\n";
    var n := if IsLineBreak(s[0]) then BreakLength(s) else 1;
    assert IsLineBreak(s[0]) ==> BreakLength(t) == n;
    assert t[n..] == s[n..] + "\n";
    if n == |s| {
      SingleLineSplit("");
      assert t == s + "\n" && SingleLine(s);
      SingleLineSplit(s);
    } else {
      SplitUnterminated(s[n..]);
    }
  }

  // ---- lines with their ends ----

  /** One line of `splitlines(keepends=True)`: a line break only at its end. */
  predicate LineLike(s: string) {
    s != "" &&
    forall i | 0 <= i < |s| - 1 && IsLineBreak(s[i]) :: i == |s| - 2 && s[i] == '\r' && s[i + 1] == '\n'
  }

  predicate Ended(s: string) {
    s != "" && IsLineBreak(s[|s| - 1])
  }

  /** A line that ends in CR and one that starts with LF would run together. */
  predicate Seam(a: string, b: string) {
    a != "" && b != "" && !(a[|a| - 1] == '\r' && b[0] == '\n')
  }

  predicate LineList(ls: seq<string>) {
    ls == [] ||
    (LineLike(ls[0]) && (|ls| > 1 ==> Ended(ls[0]) && Seam(ls[0], ls[1])) && LineList(ls[1..]))
  }

  /** `"".join(ls)` */
  function Concat(ls: seq<string>): string {
    if ls == [] then "" else ls[0] + Concat(ls[1..])
  }

  lemma ConcatCons(l: string, ls: seq<string>)
    ensures Concat([l] + ls) == l + Concat(ls) && Concat([]) == ""
  {
    assert ([l] + ls)[1..] == ls;
  }

  lemma LineListCons(l: string, ls: seq<string>)
    requires LineLike(l) && LineList(ls) && (ls != [] ==> Ended(l) && Seam(l, ls[0]))
    ensures LineList([l] + ls)
  {
    hide LineLike, Ended, Seam;
    assert ([l] + ls)[1..] == ls;
  }

  lemma BreakLine(s: string)
    requires s != "" && IsLineBreak(s[0])
    ensures var n := BreakLength(s); LineLike(s[..n]) && Ended(s[..n]) && (n < |s| ==> Seam(s[..n], s[n..]))
  {
  }

  lemma LongerLine(c: char, l: string)
    requires !IsLineBreak(c) && LineLike(l)
    ensures LineLike([c] + l)
    ensures Ended(l) ==> Ended([c] + l)
    ensures forall b :: Seam(l, b) ==> Seam([c] + l, b)
  {
    hide IsLineBreak;
    assert forall i | 1 <= i < |[c] + l| :: ([c] + l)[i] == l[i - 1];
  }

  /** `splitlines(keepends=True)` cuts a string into lines. */
  lemma {:induction false} KeepSplits(s: string)
    ensures LineList(SplitLinesKeep(s)) && Concat(SplitLinesKeep(s)) == s
    ensures s != "" ==> SplitLinesKeep(s)[0] != "" && SplitLinesKeep(s)[0][0] == s[0]
    decreases |s|
  {
    hide IsLineBreak, LineLike, Ended, Seam;
    if s != "" {
      var n := if IsLineBreak(s[0]) then BreakLength(s) else 1;
      var ls := SplitLinesKeep(s[n..]);
      KeepSplits(s[n..]);
      if IsLineBreak(s[0]) {
        BreakLine(s);
        SeamOf(s[..n], s[n..], ls);
        LineListCons(s[..n], ls);
        assert SplitLinesKeep(s)[1..] == ls;
      } else {
        PutInFront(s[0], ls);
      }
    }
  }

  lemma SeamOf(a: string, s: string, ls: seq<string>)
    requires s != "" ==> Seam(a, s)
    requires ls != [] ==> s != "" && ls[0] != "" && ls[0][0] == s[0]
    ensures ls != [] ==> Seam(a, ls[0])
  {
  }

  lemma PutInFront(c: char, ls: seq<string>)
    requires !IsLineBreak(c) && LineList(ls)
    ensures LineList(Prefixed([c], ls)) && Concat(Prefixed([c], ls)) == [c] + Concat(ls)
  {
    hide IsLineBreak, Ended, Seam, Concat;
    if ls == [] {
      ConcatCons([c], ls);
      assert [[c]] + ls == [[c]] && [c] + Concat(ls) == [c];
    } else {
      hide LineLike;
      LongerLine(c, ls[0]);
      LineListCons([c] + ls[0], ls[1..]);
      ConcatCons([c] + ls[0], ls[1..]);
      ConcatCons(ls[0], ls[1..]);
      assert [ls[0]] + ls[1..] == ls;
    }
  }

  /** Lines put together are cut in the same places again. */
  lemma {:induction false} LinesAreCut(ls: seq<string>)
    requires LineList(ls)
    ensures SplitLinesKeep(Concat(ls)) == ls
    decreases |ls|, if ls == [] then 0 else |ls[0]|
  {
    hide IsLineBreak, SplitLinesKeep, Concat, Seam;
    if ls == [] {
      NothingIsCut();
    } else {
      var l, rest := ls[0], ls[1..];
      assert l != "" && LineList(rest) && ls == [l] + rest;
      hide LineLike;
      if IsLineBreak(l[0]) {
        LinesAreCut(rest);
        CutBreak(l, rest);
      } else if |l| == 1 {
        assert rest == [];
        CutLast(l);
      } else {
        ShorterLine(ls);
        LinesAreCut([l[1..]] + rest);
        CutFurther(l[0], l[1..], rest);
        assert [l[0]] + l[1..] == l;
      }
    }
  }

  lemma NothingIsCut()
    ensures SplitLinesKeep(Concat([])) == []
  {
  }

  lemma CutBreak(l: string, ls: seq<string>)
    requires LineLike(l) && IsLineBreak(l[0]) && (ls != [] ==> Seam(l, ls[0])) && SplitLinesKeep(Concat(ls)) == ls
    ensures SplitLinesKeep(Concat([l] + ls)) == [l] + ls
  {
    hide IsLineBreak, Concat, Seam, LineLike;
    ConcatCons(l, ls);
    BreakOf(l, ls);
    var s := Concat([l] + ls);
    assert l != "" && s[0] == l[0];
    assert s[..|l|] == l && s[|l|..] == Concat(ls);
  }

  lemma CutLast(l: string)
    requires |l| == 1 && !IsLineBreak(l[0])
    ensures SplitLinesKeep(Concat([l] + [])) == [l] + []
  {
    hide IsLineBreak, Concat;
    ConcatCons(l, []);
    assert l + "" == l && l[1..] == "" && [l[0]] == l;
  }

  lemma CutFurther(c: char, l: string, ls: seq<string>)
    requires !IsLineBreak(c) && SplitLinesKeep(Concat([l] + ls)) == [l] + ls
    ensures SplitLinesKeep(Concat([[c] + l] + ls)) == [[c] + l] + ls
  {
    hide IsLineBreak, Concat;
    var s, t := Concat([l] + ls), Concat([[c] + l] + ls);
    ConcatCons(l, ls);
    ConcatCons([c] + l, ls);
    assert t[0] == c && t[1..] == s;
    assert ([l] + ls)[1..] == ls;
  }

  lemma BreakOf(l: string, ls: seq<string>)
    requires LineLike(l) && IsLineBreak(l[0]) && (ls != [] ==> Seam(l, ls[0]))
    ensures l != "" && BreakLength(l + Concat(ls)) == |l|
  {
    hide IsLineBreak;
    var s := l + Concat(ls);
    assert s[0] == l[0];
    if |l| == 1 && ls != [] {
      assert s[1] == ls[0][0];
    }
    if |l| > 1 {
      assert |l| == 2 && s[1] == l[1];
    }
  }

  lemma ShorterLine(ls: seq<string>)
    requires LineList(ls) && ls != [] && |ls[0]| > 1 && !IsLineBreak(ls[0][0])
    ensures LineList([ls[0][1..]] + ls[1..])
  {
    hide IsLineBreak;
    var l := ls[0];
    assert forall i | 0 <= i < |l[1..]| :: l[1..][i] == l[i + 1];
    assert LineLike(l[1..]) && (Ended(l) ==> Ended(l[1..]));
    hide LineLike;
    LineListCons(l[1..], ls[1..]);
  }

  // ---- join ----

  /** `sep.join(parts)` */
  function Join(sep: string, parts: seq<string>): string {
    if parts == [] then ""
    else if |parts| == 1 then parts[0]
    else parts[0] + sep + Join(sep, parts[1..])
  }

  lemma {:induction false} JoinSplit(sep: string, a: seq<string>, b: seq<string>)
    requires a != [] && b != []
    ensures Join(sep, a + b) == Join(sep, a) + sep + Join(sep, b)
  {
    if |a| == 1 {
      assert (a + b)[1..] == b;
    } else {
      assert (a + b)[1..] == a[1..] + b;
      JoinSplit(sep, a[1..], b);
      assert Join(sep, a + b) == a[0] + sep + (Join(sep, a[1..]) + sep + Join(sep, b));
    }
  }

  /** A string whose only line breaks are newlines. */
  predicate NewlinesOnly(s: string) {
    forall i | 0 <= i < |s| && IsLineBreak(s[i]) :: s[i] == '\n'
  }

  lemma {:induction false} JoinNewlinesOnly(parts: seq<string>)
    requires forall p | p in parts :: SingleLine(p)
    ensures NewlinesOnly(Join("\n", parts))
  {
    if parts != [] {
      assert SingleLine(parts[0]);
      JoinNewlinesOnly(parts[1..]);
    }
  }

  lemma {:induction false} JoinSingleLine(parts: seq<string>)
    requires forall p | p in parts :: SingleLine(p)
    ensures SingleLine(Join(" ", parts))
  {
    if parts != [] {
      assert SingleLine(parts[0]);
      JoinSingleLine(parts[1..]);
    }
  }

  /** Splitting the join of single lines gives the lines back. */
  lemma {:induction false} SplitJoin(parts: seq<string>)
    requires parts != [] && forall p | p in parts :: SingleLine(p)
    ensures SplitLines(Join("\n", parts) + "\n") == parts
  {
    assert parts[0] in parts;
    SingleLineSplit(parts[0]);
    if |parts| > 1 {
      var rest := Join("\n", parts[1..]);
      assert Join("\n", parts) + "\n" == parts[0] + "\n" + (rest + "\n");
      SplitAtNewline(parts[0], rest + "\n");
      SplitJoin(parts[1..]);
    }
  }

  /** Joining the lines of a newline-only string gives the string back. */
  lemma {:induction false} JoinSplitLines(s: string)
    requires NewlinesOnly(s)
    ensures Join("\n", SplitLines(s + "\n")) == s
    decreases |s|
  {
    var t := s + "\n";
    if s == "" {
      SingleLineSplit("");
    } else {
      var lines := SplitLines(s[1..] + "\n");
      assert t[1..] == s[1..] + "\n";
      JoinSplitLines(s[1..]);
      if s[0] == '\n' {
        JoinSplit("\n", [""], lines);
      } else {
        JoinPrefixed("\n", [s[0]], lines);
      }
    }
  }

  lemma JoinCons(sep: string, l: string, lines: seq<string>)
    requires lines != []
    ensures Join(sep, [l] + lines) == l + (sep + Join(sep, lines))
  {
    assert ([l] + lines)[1..] == lines;
  }

  lemma JoinPrefixed(sep: string, p: string, lines: seq<string>)
    requires lines != []
    ensures Join(sep, Prefixed(p, lines)) == p + Join(sep, lines)
  {
    if |lines| > 1 {
      hide Join;
      assert lines == [lines[0]] + lines[1..];
      JoinCons(sep, lines[0], lines[1..]);
      JoinCons(sep, p + lines[0], lines[1..]);
    }
  }

  // ---- strip ----

  function LStrip(s: string): (r: string)
    ensures r == "" || !IsSpace(r[0])
    ensures forall c | c in r :: c in s
  {
    if s != "" && IsSpace(s[0]) then LStrip(s[1..]) else s
  }

  function RStrip(s: string): (r: string)
    ensures r == "" || !IsSpace(r[|r| - 1])
    ensures r <= s
  {
    if s != "" && IsSpace(s[|s| - 1]) then RStrip(s[..|s| - 1]) else s
  }

  /** `s.strip()` */
  function Strip(s: string): string {
    RStrip(LStrip(s))
  }

  predicate Stripped(s: string) {
    s == "" || (!IsSpace(s[0]) && !IsSpace(s[|s| - 1]))
  }

  lemma StripStrips(s: string)
    ensures Stripped(Strip(s))
    ensures SingleLine(s) ==> SingleLine(Strip(s))
    ensures forall c | c in Strip(s) :: c in s
  {
    var l := LStrip(s);
    assert RStrip(l) != "" ==> RStrip(l)[0] == l[0];
    assert forall i | 0 <= i < |Strip(s)| :: Strip(s)[i] in Strip(s) && Strip(s)[i] in l && Strip(s)[i] in s;
  }

  lemma StripOfStripped(s: string)
    requires Stripped(s)
    ensures Strip(s) == s
  {
  }

  lemma {:induction false} LStripSpaces(a: string, s: string)
    requires forall i | 0 <= i < |a| :: IsSpace(a[i])
    ensures LStrip(a + s) == LStrip(s)
  {
    hide IsSpace;
    if a == "" {
      assert a + s == s;
    } else {
      assert (a + s)[1..] == a[1..] + s;
      LStripSpaces(a[1..], s);
    }
  }

  lemma {:induction false} RStripSpaces(s: string, b: string)
    requires forall i | 0 <= i < |b| :: IsSpace(b[i])
    ensures RStrip(s + b) == RStrip(s)
  {
    hide IsSpace;
    if b == "" {
      assert s + b == s;
    } else {
      assert (s + b)[..|s + b| - 1] == s + b[..|b| - 1];
      RStripSpaces(s, b[..|b| - 1]);
    }
  }

  /** `strip` takes the white space around a text away and nothing else. */
  lemma StripBetween(a: string, s: string, b: string)
    requires AllSpace(a) && AllSpace(b) && Stripped(s)
    ensures Strip(a + s + b) == s
  {
    hide IsSpace;
    assert a + s + b == a + (s + b);
    LStripSpaces(a, s + b);
    if s == "" {
      assert s + b == b + "";
      LStripSpaces(b, "");
    } else {
      assert (s + b)[0] == s[0];
      RStripSpaces(s, b);
    }
  }

  lemma {:induction false} StripOfInk(s: string)
    requires s != "" && !IsSpace(s[0])
    ensures Strip(s) != ""
  {
    if IsSpace(s[|s| - 1]) {
      StripOfInk(s[..|s| - 1]);
      assert LStrip(s) == s && LStrip(s[..|s| - 1]) == s[..|s| - 1];
    }
  }

  /** Index of the first white space of `s`, or `|s|`. */
  function WordEnd(s: string): (n: nat)
    ensures n <= |s| && forall i | 0 <= i < n :: !IsSpace(s[i])
    ensures n < |s| ==> IsSpace(s[n])
  {
    if s == "" || IsSpace(s[0]) then 0 else 1 + WordEnd(s[1..])
  }

  /** `s.split()`: the runs of characters between white space. */
  function Words(s: string): (words: seq<string>)
    ensures forall i | 0 <= i < |words| :: SingleLine(words[i])
    decreases |s|
  {
    if s == "" then []
    else if IsSpace(s[0]) then Words(s[1..])
    else
      var n := WordEnd(s);
      [s[..n]] + Words(s[n..])
  }

  predicate AllSpace(s: string) {
    forall i | 0 <= i < |s| :: IsSpace(s[i])
  }

  /** Words with white space before, between and behind them. */
  function Scattered(words: seq<string>, gaps: seq<string>): string
    requires |gaps| == |words| + 1
  {
    gaps[0] + if words == [] then "" else words[0] + Scattered(words[1..], gaps[1..])
  }

  /** Each gap white space, none empty but the outer two; each word without white space. */
  predicate Apart(words: seq<string>, gaps: seq<string>) {
    && |gaps| == |words| + 1
    && (forall i | 0 <= i < |gaps| :: AllSpace(gaps[i]) && (0 < i < |words| ==> gaps[i] != ""))
    && (forall i | 0 <= i < |words| :: words[i] != "" && forall j | 0 <= j < |words[i]| :: !IsSpace(words[i][j]))
  }

  lemma {:induction false} WordsSkip(gap: string, s: string)
    requires AllSpace(gap)
    ensures Words(gap + s) == Words(s)
  {
    hide IsSpace;
    if gap == "" {
      assert gap + s == s;
    } else {
      assert (gap + s)[1..] == gap[1..] + s;
      WordsSkip(gap[1..], s);
    }
  }

  lemma WordFirst(word: string, s: string)
    requires word != "" && forall j | 0 <= j < |word| :: !IsSpace(word[j])
    requires s != "" ==> IsSpace(s[0])
    ensures Words(word + s) == [word] + Words(s)
  {
    hide IsSpace;
    var n := WordEnd(word + s);
    assert n == |word| by {
      assert s != "" ==> (word + s)[|word|] == s[0];
      assert forall j | 0 <= j < |word| :: (word + s)[j] == word[j];
    }
    assert (word + s)[..n] == word && (word + s)[n..] == s;
  }

  /** `split` finds the words wherever they stand. */
  lemma {:induction false} WordsOfScattered(words: seq<string>, gaps: seq<string>)
    requires Apart(words, gaps)
    ensures Words(Scattered(words, gaps)) == words
  {
    hide IsSpace;
    if words == [] {
      WordsSkip(gaps[0], "");
      assert gaps[0] + "" == gaps[0];
    } else {
      var rest := Scattered(words[1..], gaps[1..]);
      WordsSkip(gaps[0], words[0] + rest);
      assert AllSpace(gaps[1]);
      assert rest != "" ==> IsSpace(rest[0]);
      WordFirst(words[0], rest);
      assert Apart(words[1..], gaps[1..]);
      WordsOfScattered(words[1..], gaps[1..]);
    }
  }

  /** The white space of `str.isspace`, character by character. */
  lemma SpacesAre(c: char)
    ensures IsSpace(c) <==>
            c in "\t\n\U{0B}\U{0C}\r\U{1C}\U{1D}\U{1E}\U{1F} \U{85}\U{A0}\U{1680}" ||
            c in "\U{2000}\U{2001}\U{2002}\U{2003}\U{2004}\U{2005}\U{2006}\U{2007}\U{2008}\U{2009}\U{200A}" ||
            c in "\U{2028}\U{2029}\U{202F}\U{205F}\U{3000}"
  {
  }

  // ---- searching ----

  /** Index of the first `c` in `s`, or `|s|`. */
  function IndexOf(s: string, c: char): (n: nat)
    ensures n <= |s| && forall i | 0 <= i < n :: s[i] != c
    ensures n < |s| ==> s[n] == c
    ensures n < |s| <==> c in s
  {
    if s == "" || s[0] == c then 0 else 1 + IndexOf(s[1..], c)
  }

  lemma IndexOfUnique(s: string, c: char, n: nat)
    requires n < |s| && s[n] == c && forall i | 0 <= i < n :: s[i] != c
    ensures IndexOf(s, c) == n
  {
  }

  /** `s.split(sep)` for a one-character separator. */
  function SplitOn(s: string, sep: char): (parts: seq<string>)
    ensures parts != []
  {
    var n := IndexOf(s, sep);
    if n == |s| then [s] else [s[..n]] + SplitOn(s[n + 1..], sep)
  }

  /** Splitting the join of parts without the separator gives the parts back. */
  lemma {:induction false} SplitOnJoin(parts: seq<string>, sep: char)
    requires parts != [] && forall i | 0 <= i < |parts| :: sep !in parts[i]
    ensures SplitOn(Join([sep], parts), sep) == parts
  {
    var s := Join([sep], parts);
    if |parts| > 1 {
      var rest := Join([sep], parts[1..]);
      assert s == parts[0] + ([sep] + rest);
      assert s[|parts[0]|] == sep;
      IndexOfUnique(s, sep, |parts[0]|);
      assert s[..|parts[0]|] == parts[0] && s[|parts[0]| + 1..] == rest;
      SplitOnJoin(parts[1..], sep);
    }
  }

  // ---- decimal numerals ----

  function Digit(d: nat): char
    requires d < 10
  {
    ('0' as int + d) as char
  }

  /** `str(n)` */
  function Decimal(n: nat): (s: string)
    ensures s != "" && Digits(s)
  {
    if n < 10 then [Digit(n)] else Decimal(n / 10) + [Digit(n % 10)]
  }

  predicate Digits(s: string) {
    forall i | 0 <= i < |s| :: '0' <= s[i] <= '9'
  }

  /** The number a string of decimal digits stands for. */
  function DecimalValue(s: string): nat
    requires Digits(s)
  {
    if s == "" then 0
    else
      var last := s[|s| - 1];
      10 * DecimalValue(s[..|s| - 1]) + (last as int - '0' as int)
  }

  lemma {:induction false} DecimalReads(n: nat)
    ensures DecimalValue(Decimal(n)) == n
  {
    var s := Decimal(n);
    if n < 10 {
      assert s[..|s| - 1] == "";
    } else {
      assert s[..|s| - 1] == Decimal(n / 10);
      DecimalReads(n / 10);
    }
  }

  /** Ten times a number, and one digit more, is its numeral with that digit behind. */
  lemma DecimalGrows(n: nat, d: nat)
    requires d < 10
    ensures Decimal(10 * n + d) == (if n == 0 then "" else Decimal(n)) + ["0123456789"[d]]
  {
    assert (10 * n + d) / 10 == n && (10 * n + d) % 10 == d;
    assert Digit(d) == "0123456789"[d];
  }

  lemma DecimalInjective(m: nat, n: nat)
    requires Decimal(m) == Decimal(n)
    ensures m == n
  {
    DecimalReads(m);
    DecimalReads(n);
  }
}
