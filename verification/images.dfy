/** `substitute_images` of `scripts/gitops/render_overlays.py`: the tags of catalogued images
    are replaced line by line. Rewriting twice is the same as once exactly when no catalogued
    tag can be mistaken for a shorter one. */
module Images {
  import opened Text
  import opened ImageLines
  import opened Catalog

  // ---- one line ----

  datatype Change = Change(repo: string, oldTag: string, newTag: string)

  /** `ref.split(":", 1)[1]`; every reference of the substitution map has a colon. */
  function TagOf(ref: string): string {
    var n := IndexOf(ref, ':');
    if n < |ref| then ref[n + 1..] else ""
  }

  /** The tag the catalog has for a repository. */
  function CatalogTag(mapping: Dict, repo: string): Option<string> {
    match Get(mapping, repo)
    case None => None
    case Some(ref) => Some(TagOf(ref))
  }

  /** What becomes of a line, and the change it makes. */
  function RewriteLine(line: string, mapping: Dict): (string, seq<Change>) {
    match Match(line)
    case None => (line, [])
    case Some(p) =>
      match CatalogTag(mapping, p.repo)
      case None => (line, [])
      case Some(tag) =>
        if tag == p.tag then (line, []) else (Line(p.(tag := tag)), [Change(p.repo, p.tag, tag)])
  }

  function RewriteAll(lines: seq<string>, mapping: Dict): (r: seq<string>)
    ensures |r| == |lines|
  {
    if lines == [] then [] else [RewriteLine(lines[0], mapping).0] + RewriteAll(lines[1..], mapping)
  }

  function AllChanges(lines: seq<string>, mapping: Dict): seq<Change> {
    if lines == [] then [] else RewriteLine(lines[0], mapping).1 + AllChanges(lines[1..], mapping)
  }

  function RewriteText(text: string, mapping: Dict): string {
    Concat(RewriteAll(SplitLinesKeep(text), mapping))
  }

  /** `repl`: the catalog is searched in the given order. */
  method Replace(line: string, p: Parts, ordered: Dict, ghost mapping: Dict) returns (r: string, change: seq<Change>)
    requires Match(line) == Some(p)
    requires forall k :: Get(ordered, k) == Get(mapping, k)
    ensures (r, change) == RewriteLine(line, mapping)
  {
    hide Match, Line, TagOf;
    for i := 0 to |ordered|
      invariant Get(ordered, p.repo) == Get(ordered[i..], p.repo)
    {
      assert ordered[i..][1..] == ordered[i + 1..];
      if p.repo == ordered[i].0 {
        var newTag := TagOf(ordered[i].1);
        if newTag != p.tag {
          return Line(p.(tag := newTag)), [Change(p.repo, p.tag, newTag)];
        }
        return line, [];
      }
    }
    return line, [];
  }

  /** `substitute_images` with the result of `substitution_map`. */
  method SubstituteImages(text: string, mapping: Dict) returns (r: string, changes: seq<Change>)
    requires DistinctKeys(mapping)
    ensures r == RewriteText(text, mapping)
    ensures changes == AllChanges(SplitLinesKeep(text), mapping)
  {
    hide Match, RewriteLine, Get, Concat, SplitLinesKeep, RewriteAll, AllChanges;
    var ordered := LongestFirst(mapping);
    forall k ensures Get(ordered, k) == Get(mapping, k) {
      OrderDoesNotMatter(mapping, k);
    }
    var lines := SplitLinesKeep(text);
    var done: seq<string> := [];
    changes := [];
    assert lines[0..] == lines && lines[|lines|..] == [];
    for i := 0 to |lines|
      invariant done + RewriteAll(lines[i..], mapping) == RewriteAll(lines, mapping)
      invariant changes + AllChanges(lines[i..], mapping) == AllChanges(lines, mapping)
    {
      OneMoreLine(lines, i, mapping);
      var line, change := lines[i], [];
      match Match(lines[i]) {
        case None => Unmatched(lines[i], mapping);
        case Some(p) => line, change := Replace(lines[i], p, ordered, mapping);
      }
      done := done + [line];
      changes := changes + change;
    }
    NoMoreLines(mapping);
    assert done == RewriteAll(lines, mapping);
    r := Concat(done);
  }

  lemma OneMoreLine(lines: seq<string>, i: nat, mapping: Dict)
    requires i < |lines|
    ensures RewriteAll(lines[i..], mapping) ==
            [RewriteLine(lines[i], mapping).0] + RewriteAll(lines[i + 1..], mapping)
    ensures AllChanges(lines[i..], mapping) ==
            RewriteLine(lines[i], mapping).1 + AllChanges(lines[i + 1..], mapping)
  {
    hide RewriteLine;
    assert lines[i..][1..] == lines[i + 1..];
  }

  /** Changes are recorded in the order of the lines. */
  lemma {:induction false} ChangesInOrder(a: seq<string>, b: seq<string>, mapping: Dict)
    ensures AllChanges(a + b, mapping) == AllChanges(a, mapping) + AllChanges(b, mapping)
    ensures |b| == 1 ==> AllChanges(b, mapping) == RewriteLine(b[0], mapping).1
  {
    hide RewriteLine;
    if a == [] {
      assert a + b == b;
    } else {
      assert (a + b)[1..] == a[1..] + b;
      ChangesInOrder(a[1..], b, mapping);
    }
  }

  lemma NoMoreLines(mapping: Dict)
    ensures RewriteAll([], mapping) == [] && AllChanges([], mapping) == []
  {
  }

  lemma Unmatched(line: string, mapping: Dict)
    requires Match(line) == None
    ensures RewriteLine(line, mapping) == (line, [])
  {
  }

  /** With clean tags in the catalog, a line that does not name a catalogued image stays as it
      is, and in one that does nothing but the tag is replaced: the pattern reads the new line
      as the old one with the catalog's tag. */
  lemma OnlyTheTagChanges(line: string, mapping: Dict)
    requires forall repo :: CleanTag(CatalogTag(mapping, repo))
    ensures var (r, changes) := RewriteLine(line, mapping);
            match Match(line)
            case None => r == line && changes == []
            case Some(p) =>
              match CatalogTag(mapping, p.repo)
              case None => r == line && changes == []
              case Some(tag) =>
                && Match(r) == Some(p.(tag := tag))
                && changes == (if tag == p.tag then [] else [Change(p.repo, p.tag, tag)])
  {
    hide Match, Line, CatalogTag, IsDash, IsQuote, IsComment, All;
    if Match(line).Some? {
      var p := Match(line).value;
      MatchSound(line);
      assert CleanTag(CatalogTag(mapping, p.repo));
      if CatalogTag(mapping, p.repo).Some? {
        MatchOfLine(p.(tag := CatalogTag(mapping, p.repo).value));
      }
    }
  }

  lemma TagBehindColon(repo: string, tag: string)
    requires ':' !in repo
    ensures TagOf(repo + ":" + tag) == tag
  {
    var ref := repo + ":" + tag;
    assert ref[|repo|] == ':' && ref[|repo| + 1..] == tag;
    IndexOfUnique(ref, ':', |repo|);
  }

  /** Whatever the catalog's tag is, the text behind the first colon of its reference, it is put
      in the place of the old one, and nothing else of the line changes. */
  lemma TagIsReplaced(line: string, mapping: Dict, p: Parts, repo: string, tag: string)
    requires Reads(line, p) && ':' !in repo && Get(mapping, p.repo) == Some(repo + ":" + tag)
    ensures RewriteLine(line, mapping) ==
            (TextOf(p.(tag := tag)), if tag == p.tag then [] else [Change(p.repo, p.tag, tag)])
  {
    hide Match, Line, TextOf, Reads, Get, TagOf;
    MatchReads(line, p);
    MatchIff(line, p);
    TagBehindColon(repo, tag);
    LineText(p.(tag := tag));
    assert tag == p.tag ==> p.(tag := tag) == p;
  }

  /** Any other line stays as it is. */
  lemma OtherLinesStay(line: string, mapping: Dict)
    requires forall p | Reads(line, p) :: Get(mapping, p.repo) == None
    ensures RewriteLine(line, mapping) == (line, [])
  {
    hide Match, Line, Reads;
    if Match(line).Some? {
      MatchReads(line, Match(line).value);
    }
  }

  /** No tag, or one without quotes, comment signs and white space. */
  predicate CleanTag(tag: Option<string>) {
    tag.Some? ==> tag.value != "" && All(tag.value, TagChar)
  }

  // ---- a line with another tag stays a line ----

  /** Everything of a line in front of its tag, and everything behind. */
  function Front(p: Parts): string {
    p.lead + (p.dash + (IMAGE + (p.gap + (p.quote + (p.repo + ":")))))
  }

  function Back(p: Parts): string {
    p.quote + (p.comment + p.tail)
  }

  lemma LineCut(p: Parts)
    ensures Line(p) == Front(p) + (p.tag + Back(p)) && Front(p) != ""
  {
    var back := p.tag + Back(p);
    var s1 := p.repo + ":";
    assert p.repo + (":" + back) == s1 + back;
    var s2 := p.quote + s1;
    assert p.quote + (s1 + back) == s2 + back;
    var s3 := p.gap + s2;
    assert p.gap + (s2 + back) == s3 + back;
    var s4 := IMAGE + s3;
    assert IMAGE + (s3 + back) == s4 + back;
    var s5 := p.dash + s4;
    assert p.dash + (s4 + back) == s5 + back;
    assert p.lead + (s5 + back) == (p.lead + s5) + back;
  }

  lemma BreakIsSpace(c: char)
    ensures IsLineBreak(c) ==> IsSpace(c)
  {
  }

  /** A tag in a line may be replaced by any text without line breaks. */
  lemma ReplaceInside(x: string, tag: string, y: string, t: string)
    requires x != "" && tag != "" && All(tag, TagChar) && SingleLine(t) && LineLike(x + (tag + y))
    ensures LineLike(x + (t + y))
  {
    hide IsLineBreak, IsSpace;
    var s, r := x + (tag + y), x + (t + y);
    TagHasNoBreak(tag);
    forall i | 0 <= i < |x| ensures !IsLineBreak(x[i]) {
      assert s[i] == x[i] && (i == |x| - 1 ==> s[i + 1] == tag[0]);
      assert |tag| == 1 && y == "" ==> s[|s| - 1] == tag[0];
    }
    assert forall i | 0 <= i < |x| :: r[i] == x[i];
    assert forall i | |x| <= i < |x| + |t| :: r[i] == t[i - |x|];
    forall i | 0 <= i < |r| - 1 && IsLineBreak(r[i])
      ensures i == |r| - 2 && r[i] == '\r' && r[i + 1] == '\n'
    {
      var k := i - |r| + |s|;
      assert r[i] == y[i - |x| - |t|] == s[k];
      assert r[i + 1] == s[k + 1];
    }
  }

  lemma TagHasNoBreak(tag: string)
    requires All(tag, TagChar)
    ensures forall i | 0 <= i < |tag| :: !IsLineBreak(tag[i]) && tag[i] != '\n'
  {
    hide IsLineBreak, IsSpace;
    forall i | 0 <= i < |tag| ensures !IsLineBreak(tag[i]) && tag[i] != '\n' {
      BreakIsSpace(tag[i]);
      NotASpace();
    }
  }

  /** Whatever replaces a tag, a terminated line begins and ends as before. */
  lemma EndsStay(x: string, tag: string, y: string, t: string)
    requires x != "" && tag != "" && All(tag, TagChar)
    ensures (x + (t + y))[0] == (x + (tag + y))[0]
    ensures Ended(x + (tag + y)) ==> Ended(x + (t + y))
    ensures forall b :: Ended(x + (tag + y)) && Seam(x + (tag + y), b) ==> Seam(x + (t + y), b)
  {
    hide IsLineBreak, IsSpace;
    var s, r := x + (tag + y), x + (t + y);
    TagHasNoBreak(tag);
    if y != "" {
      assert r[|r| - 1] == y[|y| - 1] == s[|s| - 1];
    } else {
      assert s[|s| - 1] == tag[|tag| - 1];
    }
  }

  predicate SingleLineTags(mapping: Dict, repo: string) {
    CatalogTag(mapping, repo).Some? ==> SingleLine(CatalogTag(mapping, repo).value)
  }

  /** If the line names a catalogued image, the new tag is on one line. */
  predicate NewTagFits(line: string, mapping: Dict) {
    Match(line).Some? ==> SingleLineTags(mapping, Match(line).value.repo)
  }

  lemma RewrittenLineFits(line: string, mapping: Dict)
    requires LineLike(line)
    ensures var r := RewriteLine(line, mapping).0;
            && r != "" && line != "" && r[0] == line[0] && (Ended(line) ==> Ended(r))
            && (forall b :: Ended(line) && Seam(line, b) ==> Seam(r, b))
            && (NewTagFits(line, mapping) ==> LineLike(r))
  {
    hide LineLike, Ended, Seam, Match, Line, TagOf, SingleLine, Shaped;
    assert line != "" by { NonEmptyLine(line); }
    if Match(line).Some? {
      var p := Match(line).value;
      MatchSound(line);
      if CatalogTag(mapping, p.repo).Some? {
        var t := CatalogTag(mapping, p.repo).value;
        LineCut(p);
        LineCut(p.(tag := t));
        assert Front(p.(tag := t)) == Front(p) && Back(p.(tag := t)) == Back(p);
        TagShape(p);
        EndsStay(Front(p), p.tag, Back(p), t);
        if SingleLine(t) {
          ReplaceInside(Front(p), p.tag, Back(p), t);
        }
      }
    }
  }

  lemma NonEmptyLine(line: string)
    requires LineLike(line)
    ensures line != ""
  {
  }

  lemma TagShape(p: Parts)
    requires Shaped(p)
    ensures p.tag != "" && All(p.tag, TagChar)
  {
  }

  lemma {:induction false} RewrittenLinesFit(lines: seq<string>, mapping: Dict)
    requires LineList(lines) && forall i | 0 <= i < |lines| :: LineLike(RewriteAll(lines, mapping)[i])
    ensures LineList(RewriteAll(lines, mapping))
  {
    hide LineLike, Ended, RewriteLine, NewTagFits;
    if lines != [] {
      var l, rest := RewriteLine(lines[0], mapping).0, RewriteAll(lines[1..], mapping);
      assert RewriteAll(lines, mapping)[0] == l && RewriteAll(lines, mapping)[1..] == rest;
      RewrittenLineFits(lines[0], mapping);
      forall i | 0 <= i < |rest| ensures LineLike(rest[i]) {
        assert rest[i] == RewriteAll(lines, mapping)[i + 1];
      }
      RewrittenLinesFit(lines[1..], mapping);
      if |lines| > 1 {
        RewrittenLineFits(lines[1], mapping);
        assert lines[1..][0] == lines[1];
        assert Seam(l, lines[1]);
        assert rest[0] == RewriteLine(lines[1], mapping).0;
      }
      LineListCons(l, rest);
    }
  }

  lemma {:induction false} AllLineLike(lines: seq<string>)
    requires LineList(lines)
    ensures forall i | 0 <= i < |lines| :: LineLike(lines[i])
  {
    hide LineLike, Ended, Seam;
    if lines != [] {
      AllLineLike(lines[1..]);
      assert forall i | 1 <= i < |lines| :: lines[i] == lines[1..][i - 1];
    }
  }

  /** The lines of the new text are the old lines, each rewritten on its own, if and only if each
      rewritten line is one line. */
  lemma RewritesLineByLineIff(text: string, mapping: Dict)
    ensures SplitLinesKeep(RewriteText(text, mapping)) == RewriteAll(SplitLinesKeep(text), mapping)
       <==> forall i | 0 <= i < |SplitLinesKeep(text)| :: LineLike(RewriteAll(SplitLinesKeep(text), mapping)[i])
  {
    hide LineList, SplitLinesKeep, LineLike;
    var lines := SplitLinesKeep(text);
    KeepSplits(text);
    KeepSplits(RewriteText(text, mapping));
    AllLineLike(SplitLinesKeep(RewriteText(text, mapping)));
    if forall i | 0 <= i < |lines| :: LineLike(RewriteAll(lines, mapping)[i]) {
      RewrittenLinesFit(lines, mapping);
      LinesAreCut(RewriteAll(lines, mapping));
    }
  }

  lemma {:induction false} FittingLines(lines: seq<string>, mapping: Dict)
    requires LineList(lines) && forall i | 0 <= i < |lines| :: NewTagFits(lines[i], mapping)
    ensures forall i | 0 <= i < |lines| :: LineLike(RewriteAll(lines, mapping)[i])
  {
    hide LineLike, Ended, Seam, RewriteLine, NewTagFits;
    if lines != [] {
      RewrittenLineFits(lines[0], mapping);
      forall i | 0 <= i < |lines[1..]| ensures NewTagFits(lines[1..][i], mapping) {
        assert lines[1..][i] == lines[i + 1];
      }
      FittingLines(lines[1..], mapping);
    }
  }

  /** So it is whenever the tags put in are on one line. */
  lemma RewritesLineByLine(text: string, mapping: Dict)
    requires forall i | 0 <= i < |SplitLinesKeep(text)| :: NewTagFits(SplitLinesKeep(text)[i], mapping)
    ensures SplitLinesKeep(RewriteText(text, mapping)) == RewriteAll(SplitLinesKeep(text), mapping)
  {
    hide LineList, SplitLinesKeep, NewTagFits, LineLike;
    KeepSplits(text);
    FittingLines(SplitLinesKeep(text), mapping);
    RewritesLineByLineIff(text, mapping);
  }

  // ---- reading a rewritten line again ----

  /** A new tag `t` in front of `quote` and `rest` is read as a shorter tag, and the line
      still has the shape of an image line. */
  predicate Misread(t: string, quote: string, rest: string) {
    var n := Run(t, TagChar);
    var behind := t[n..] + (quote + rest);
    0 < n < |t| && quote <= behind && TakeEnding(behind[|quote|..]).Some?
  }

  lemma TagRead(t: string, quote: string, rest: string)
    requires IsQuote(quote) && (quote == "" ==> rest == "" || !In(rest[0], TagChar))
    ensures var n := Run(t, TagChar); TakeRun(t + (quote + rest), TagChar) == (t[..n], t[n..] + (quote + rest))
  {
    hide IsSpace, TakeRun;
    NotASpace();
    var n := Run(t, TagChar);
    assert t + (quote + rest) == t[..n] + (t[n..] + (quote + rest));
    assert quote == "" ==> quote + rest == rest;
    RunOf(t[..n], t[n..] + (quote + rest), TagChar);
  }

  /** What the pattern makes of a line in which `t` was put for the tag. */
  lemma SecondReading(p: Parts, t: string)
    requires Shaped(p)
    ensures var n, m := Run(t, TagChar), Match(Line(p.(tag := t)));
            && (n == 0 ==> m == None)
            && (0 < n == |t| ==> m == Some(p.(tag := t)))
            && (0 < n < |t| ==> (m.Some? <==> Misread(t, p.quote, p.comment + p.tail)))
            && (0 < n < |t| && m.Some? ==> m.value.repo == p.repo && m.value.tag == t[..n])
  {
    hide IsSpace, Run, TakeRun, TakeEnding, IsDash, IsComment, Match, MatchRef, All;
    var n, rest := Run(t, TagChar), p.comment + p.tail;
    RefStarts(p.quote, p.repo, t, rest);
    PrefixRead(p.lead, p.dash, p.gap, Ref(p.quote, p.repo, t, rest));
    RefRead(p.quote, p.repo, t + (p.quote + rest));
    EndingStarts(p.comment, p.tail);
    TagRead(t, p.quote, rest);
    if n == |t| {
      NothingBehind(t, p.quote, rest);
      EndingOf(p.comment, p.tail);
    }
  }

  lemma NothingBehind(t: string, quote: string, rest: string)
    ensures t[..|t|] == t && t[|t|..] + (quote + rest) == quote + rest && (quote + rest)[|quote|..] == rest
  {
    assert t[|t|..] == "";
  }

  // ---- tags that cannot be misread ----

  predicate Blank(s: string) {
    Run(s, Space) == |s|
  }

  /** White space and then a comment sign. */
  predicate Hash(s: string) {
    Run(s, Space) < |s| && s[Run(s, Space)] == '#'
  }

  /** A tag is settled if it has only tag characters, or begins with another one, or if what
      follows its first tag characters could not end a line. */
  predicate Settles(t: string) {
    var n := Run(t, TagChar);
    var r := t[n..];
    n == 0 || n == |t| || !(Blank(r) || Hash(r) || ((r[0] == '"' || r[0] == '\'') && Hash(r[1..])))
  }

  lemma {:induction false} RunInside(x: string, rest: string)
    requires Run(x, Space) < |x|
    ensures Run(x + rest, Space) == Run(x, Space)
  {
    assert (x + rest)[0] == x[0];
    if In(x[0], Space) {
      assert (x + rest)[1..] == x[1..] + rest;
      RunInside(x[1..], rest);
    }
  }

  lemma NoEnding(x: string, rest: string)
    requires Run(x, Space) < |x| && x[Run(x, Space)] != '#'
    ensures TakeEnding(x + rest) == None
  {
    hide IsSpace;
    NotASpace();
    RunInside(x, rest);
    var k := Run(x, Space);
    assert (x + rest)[k] == x[k];
  }

  lemma SettledIsNotMisread(t: string, quote: string, rest: string)
    requires Settles(t) && IsQuote(quote)
    ensures !Misread(t, quote, rest)
  {
    hide IsSpace, Run, TakeEnding;
    NotASpace();
    var n := Run(t, TagChar);
    var r := t[n..];
    if 0 < n < |t| {
      if quote == "" {
        assert quote + rest == rest;
        NoEnding(r, rest);
      } else {
        var u := r[1..];
        assert (r + (quote + rest))[0] == r[0];
        if r[0] == quote[0] {
          assert (r + (quote + rest))[|quote|..] == u + (quote + rest);
          if Blank(u) {
            assert u + (quote + rest) == (u + quote) + rest;
            RunOf(u, quote, Space);
            RunFromTake(u + quote, Space, u, quote);
            NoEnding(u + quote, rest);
          } else {
            NoEnding(u, quote + rest);
          }
        }
      }
    }
  }

  lemma HashEnds(x: string, rest: string)
    requires Hash(x) && '\n' !in x && '\n' !in rest
    ensures TakeEnding(x + rest).Some?
  {
    hide IsSpace;
    RunInside(x, rest);
    assert forall i | 0 <= i < |x + rest| :: (x + rest)[i] != '\n';
    assert '\n' !in (x + rest)[Run(x, Space)..];
  }

  /** A tag that is not settled is misread in some line. */
  lemma UnsettledIsMisread(t: string) returns (quote: string, comment: string)
    requires !Settles(t) && SingleLine(t)
    ensures (quote == "" || quote == "\"" || quote == "'") && (comment == "" || comment == "#")
    ensures Misread(t, quote, comment)
  {
    hide IsSpace, TakeEnding, Run;
    NotASpace();
    var n := Run(t, TagChar);
    var r := t[n..];
    assert '\n' !in t;
    quote, comment := "", "";
    if Hash(r) {
      HashEnds(r, "");
      assert quote + comment == "";
    } else if Blank(r) {
      comment := "#";
      assert quote + comment == "#";
      RunOf(r, "#", Space);
      RunFromTake(r + "#", Space, r, "#");
      assert '\n' !in r + "#";
      assert r + "#" + "" == r + "#";
      HashEnds(r + "#", "");
    } else {
      quote := r[..1];
      var behind := r + (quote + comment);
      assert quote <= behind && behind[|quote|..] == r[1..] + quote;
      HashEnds(r[1..], quote);
    }
  }

  // ---- rewriting twice ----

  predicate Plain(repo: string) {
    repo != "" && All(repo, RepoChar)
  }

  ghost predicate SettledCatalog(mapping: Dict) {
    forall repo :: Plain(repo) && CatalogTag(mapping, repo).Some? ==> Settles(CatalogTag(mapping, repo).value)
  }

  /** The line does not name a catalogued image with another tag than the catalog's. */
  predicate CarriesTag(line: string, mapping: Dict) {
    Match(line).Some? && CatalogTag(mapping, Match(line).value.repo).Some? ==>
      Match(line).value.tag == CatalogTag(mapping, Match(line).value.repo).value
  }

  lemma RewrittenLineCarriesTag(line: string, mapping: Dict)
    requires SettledCatalog(mapping)
    ensures CarriesTag(RewriteLine(line, mapping).0, mapping)
  {
    hide Match, Line, TagOf, Get, Misread, Run;
    if Match(line).Some? {
      var p := Match(line).value;
      MatchSound(line);
      if CatalogTag(mapping, p.repo).Some? {
        var t := CatalogTag(mapping, p.repo).value;
        assert Plain(p.repo) && Settles(t);
        SecondReading(p, t);
        SettledIsNotMisread(t, p.quote, p.comment + p.tail);
      }
    }
  }

  lemma {:induction false} RewrittenLinesCarryTags(lines: seq<string>, mapping: Dict)
    requires SettledCatalog(mapping)
    ensures forall i | 0 <= i < |lines| :: CarriesTag(RewriteAll(lines, mapping)[i], mapping)
  {
    hide CarriesTag, RewriteLine, SettledCatalog;
    if lines != [] {
      RewrittenLineCarriesTag(lines[0], mapping);
      RewrittenLinesCarryTags(lines[1..], mapping);
    }
  }

  /** Every line of the text that names a catalogued image has the catalog's tag. */
  ghost predicate AllCarry(text: string, mapping: Dict) {
    forall i | 0 <= i < |SplitLinesKeep(text)| :: CarriesTag(SplitLinesKeep(text)[i], mapping)
  }

  lemma RewrittenTextCarries(text: string, mapping: Dict)
    requires SettledCatalog(mapping) && forall repo :: SingleLineTags(mapping, repo)
    ensures AllCarry(RewriteText(text, mapping), mapping)
  {
    hide CarriesTag, SplitLinesKeep, RewriteText, SettledCatalog;
    RewritesLineByLine(text, mapping);
    RewrittenLinesCarryTags(SplitLinesKeep(text), mapping);
  }

  lemma {:induction false} CarriedTagsStay(lines: seq<string>, mapping: Dict)
    requires forall i | 0 <= i < |lines| :: CarriesTag(lines[i], mapping)
    ensures RewriteAll(lines, mapping) == lines && AllChanges(lines, mapping) == []
  {
    hide Match, CatalogTag;
    if lines != [] {
      assert CarriesTag(lines[0], mapping);
      forall i | 0 <= i < |lines[1..]| ensures CarriesTag(lines[1..][i], mapping) {
        assert lines[1..][i] == lines[i + 1];
      }
      CarriedTagsStay(lines[1..], mapping);
    }
  }

  lemma RewritingTwice(text: string, mapping: Dict)
    requires SettledCatalog(mapping) && forall repo :: SingleLineTags(mapping, repo)
    ensures RewriteText(RewriteText(text, mapping), mapping) == RewriteText(text, mapping)
    ensures AllChanges(SplitLinesKeep(RewriteText(text, mapping)), mapping) == []
  {
    hide CarriesTag, SplitLinesKeep, SettledCatalog;
    RewrittenTextCarries(text, mapping);
    CarriedTextStays(RewriteText(text, mapping), mapping);
  }

  lemma CarriedTextStays(text: string, mapping: Dict)
    requires AllCarry(text, mapping)
    ensures RewriteText(text, mapping) == text && AllChanges(SplitLinesKeep(text), mapping) == []
  {
    hide CarriesTag, SplitLinesKeep;
    CarriedTagsStay(SplitLinesKeep(text), mapping);
    KeepSplits(text);
  }

  lemma SingleLineConcat(a: string, b: string)
    requires SingleLine(a) && SingleLine(b)
    ensures SingleLine(a + b)
  {
    hide IsLineBreak;
  }

  lemma InkIsSingleLine(s: string, kind: CharClass)
    requires All(s, kind) && !kind.Space?
    ensures SingleLine(s)
  {
    hide IsLineBreak, IsSpace;
    forall i | 0 <= i < |s| ensures !IsLineBreak(s[i]) {
      BreakIsSpace(s[i]);
    }
  }

  /** The simplest line with these parts. */
  function Example(quote: string, repo: string, comment: string): Parts {
    Parts("", "", "", quote, repo, "x", comment, "")
  }

  lemma ExampleIsALine(quote: string, repo: string, comment: string, t: string)
    requires IsQuote(quote) && Plain(repo) && (comment == "" || comment == "#") && SingleLine(t)
    ensures Shaped(Example(quote, repo, comment))
    ensures var l := Line(Example(quote, repo, comment).(tag := t)); SplitLinesKeep(l) == [l]
  {
    var p := Example(quote, repo, comment);
    ExampleIsShaped(quote, repo, comment);
    hide SplitLinesKeep, Line, IsSpace, Example, SingleLine, Shaped, Front, Back, IsQuote, Plain;
    LineCut(p.(tag := t));
    ExampleFront(quote, repo, comment, t);
    SingleLineConcat(t, Back(p.(tag := t)));
    SingleLineConcat(Front(p.(tag := t)), t + Back(p.(tag := t)));
    OneLine(Line(p.(tag := t)));
  }

  lemma ExampleFront(quote: string, repo: string, comment: string, t: string)
    requires IsQuote(quote) && Plain(repo) && (comment == "" || comment == "#")
    ensures SingleLine(Front(Example(quote, repo, comment).(tag := t)))
    ensures SingleLine(Back(Example(quote, repo, comment).(tag := t)))
  {
    hide IsSpace;
    InkIsSingleLine(repo, RepoChar);
    Fixed();
    assert quote == "" || quote == "\"" || quote == "'";
    hide SingleLine, IsLineBreak;
    SingleLineConcat(repo, ":");
    SingleLineConcat(quote, repo + ":");
    SingleLineConcat("", quote + (repo + ":"));
    SingleLineConcat(IMAGE, "" + (quote + (repo + ":")));
    SingleLineConcat("", IMAGE + ("" + (quote + (repo + ":"))));
    SingleLineConcat("", "" + (IMAGE + ("" + (quote + (repo + ":")))));
    SingleLineConcat(comment, "");
    SingleLineConcat(quote, comment + "");
  }

  lemma Fixed()
    ensures SingleLine("") && SingleLine("\"") && SingleLine("'") && SingleLine(IMAGE) && SingleLine(":") && SingleLine("#")
  {
  }

  lemma ExampleIsShaped(quote: string, repo: string, comment: string)
    requires IsQuote(quote) && Plain(repo) && (comment == "" || comment == "#")
    ensures Shaped(Example(quote, repo, comment))
  {
    NotASpace();
    assert comment == "#" ==> IsComment(comment, 0);
  }

  lemma OneLine(l: string)
    requires l != "" && SingleLine(l)
    ensures SplitLinesKeep(l) == [l]
  {
    hide IsLineBreak, SplitLinesKeep;
    assert LineList([l]);
    ConcatCons(l, []);
    assert [l] + [] == [l] && l + "" == l;
    LinesAreCut([l]);
  }

  /** A catalogued tag that is not settled grows with every pass over some line. */
  lemma UnsettledTagGrows(mapping: Dict, repo: string) returns (text: string)
    requires Plain(repo) && CatalogTag(mapping, repo).Some? && !Settles(CatalogTag(mapping, repo).value)
    requires SingleLine(CatalogTag(mapping, repo).value)
    ensures |RewriteText(RewriteText(text, mapping), mapping)| > |RewriteText(text, mapping)|
  {
    hide SplitLinesKeep, Match, Line, CatalogTag, Run, Misread, SingleLine, IsSpace, Shaped;
    var t := CatalogTag(mapping, repo).value;
    var quote, comment := UnsettledIsMisread(t);
    var p := Example(quote, repo, comment);
    assert SingleLine("x") by { XIsATag(); }
    ExampleIsALine(quote, repo, comment, "x");
    assert p.(tag := "x") == p;
    ExampleIsALine(quote, repo, comment, t);
    text := Line(p);
    MatchOfLine(p);
    XSettles(t);
    OneLineText(text, mapping);
    var l := Line(p.(tag := t));
    assert RewriteText(text, mapping) == l;
    SecondReading(p, t);
    assert comment + "" == comment;
    var q := Match(l).value;
    MatchSound(l);
    OneLineText(l, mapping);
    LineCut(q);
    LineCut(q.(tag := t));
    assert Front(q.(tag := t)) == Front(q) && Back(q.(tag := t)) == Back(q);
  }

  lemma XIsATag()
    ensures SingleLine("x")
  {
  }

  lemma XSettles(t: string)
    requires !Settles(t)
    ensures t != "x" && 0 < Run(t, TagChar) < |t|
  {
  }

  lemma OneLineText(l: string, mapping: Dict)
    requires SplitLinesKeep(l) == [l]
    ensures RewriteText(l, mapping) == RewriteLine(l, mapping).0
  {
    hide SplitLinesKeep, RewriteLine;
    var r := RewriteLine(l, mapping).0;
    ConcatCons(r, []);
    assert RewriteAll([l], mapping) == [r] + RewriteAll([], mapping);
    assert [r] + [] == [r] && r + "" == r;
  }

  /** Rewriting any text twice is the same as once exactly when every tag that the catalog has
      for a repository is settled. Tags without quotes, comment signs and white space are. */
  lemma IdempotentIff(mapping: Dict)
    requires forall repo :: SingleLineTags(mapping, repo)
    ensures (forall text :: RewriteText(RewriteText(text, mapping), mapping) == RewriteText(text, mapping))
            <==> SettledCatalog(mapping)
  {
    hide RewriteText, Settles, CatalogTag, Plain, SingleLine;
    if SettledCatalog(mapping) {
      forall text ensures RewriteText(RewriteText(text, mapping), mapping) == RewriteText(text, mapping) {
        RewritingTwice(text, mapping);
      }
    } else {
      var repo :| Plain(repo) && CatalogTag(mapping, repo).Some? && !Settles(CatalogTag(mapping, repo).value);
      assert SingleLineTags(mapping, repo);
      var text := UnsettledTagGrows(mapping, repo);
    }
  }

  /** After rewriting any text, every line of it that names a catalogued image has the tag of the
      catalog, exactly when the catalog is settled. */
  lemma TagsAreTheCatalogsIff(mapping: Dict)
    requires forall repo :: SingleLineTags(mapping, repo)
    ensures (forall text :: AllCarry(RewriteText(text, mapping), mapping)) <==> SettledCatalog(mapping)
  {
    hide RewriteText, Settles, CatalogTag, Plain, SingleLine, AllCarry;
    if SettledCatalog(mapping) {
      forall text ensures AllCarry(RewriteText(text, mapping), mapping) {
        RewrittenTextCarries(text, mapping);
      }
    } else {
      var repo :| Plain(repo) && CatalogTag(mapping, repo).Some? && !Settles(CatalogTag(mapping, repo).value);
      assert SingleLineTags(mapping, repo);
      var text := UnsettledTagGrows(mapping, repo);
      if AllCarry(RewriteText(text, mapping), mapping) {
        CarriedTextStays(RewriteText(text, mapping), mapping);
      }
    }
  }

  /** A clean tag is settled. */
  lemma CleanTagSettles(t: string)
    requires All(t, TagChar)
    ensures Settles(t)
  {
    RunOf(t, "", TagChar);
    assert t + "" == t;
  }

  // ---- changes ----

  /** Number of line break characters. */
  function Breaks(s: string): nat {
    if s == "" then 0 else (if IsLineBreak(s[0]) then 1 else 0) + Breaks(s[1..])
  }

  lemma {:induction false} BreaksAdd(a: string, b: string)
    ensures Breaks(a + b) == Breaks(a) + Breaks(b)
  {
    hide IsLineBreak;
    if a == "" {
      assert a + b == b;
    } else {
      assert (a + b)[1..] == a[1..] + b;
      BreaksAdd(a[1..], b);
    }
  }

  lemma {:induction false} NoBreaksIff(s: string)
    ensures Breaks(s) == 0 <==> SingleLine(s)
  {
    hide IsLineBreak;
    if s != "" {
      NoBreaksIff(s[1..]);
      assert forall i | 1 <= i < |s| :: s[i] == s[1..][i - 1];
    }
  }

  /** A line gains the line breaks of its new tag. */
  lemma LineGainsBreaks(line: string, mapping: Dict)
    ensures Breaks(RewriteLine(line, mapping).0) >= Breaks(line)
    ensures Breaks(RewriteLine(line, mapping).0) == Breaks(line) ==> NewTagFits(line, mapping)
  {
    hide Match, Line, TagOf, SingleLine, Shaped, Breaks;
    if Match(line).Some? {
      var p := Match(line).value;
      MatchSound(line);
      if CatalogTag(mapping, p.repo).Some? {
        var t := CatalogTag(mapping, p.repo).value;
        LineCut(p);
        LineCut(p.(tag := t));
        assert Front(p.(tag := t)) == Front(p) && Back(p.(tag := t)) == Back(p);
        TagShape(p);
        InkIsSingleLine(p.tag, TagChar);
        NoBreaksIff(p.tag);
        NoBreaksIff(t);
        BreaksAdd(p.tag, Back(p));
        BreaksAdd(t, Back(p));
        BreaksAdd(Front(p), p.tag + Back(p));
        BreaksAdd(Front(p), t + Back(p));
      }
    }
  }

  lemma {:induction false} LinesGainBreaks(lines: seq<string>, mapping: Dict)
    ensures Breaks(Concat(RewriteAll(lines, mapping))) >= Breaks(Concat(lines))
    ensures Breaks(Concat(RewriteAll(lines, mapping))) == Breaks(Concat(lines)) ==>
              forall i | 0 <= i < |lines| :: NewTagFits(lines[i], mapping)
  {
    hide RewriteLine, NewTagFits, Breaks, Concat;
    if lines == [] {
      assert RewriteAll(lines, mapping) == lines;
    } else {
      var l, rest := RewriteLine(lines[0], mapping).0, RewriteAll(lines[1..], mapping);
      LineGainsBreaks(lines[0], mapping);
      LinesGainBreaks(lines[1..], mapping);
      ConcatCons(lines[0], lines[1..]);
      ConcatCons(l, rest);
      assert [lines[0]] + lines[1..] == lines;
      BreaksAdd(lines[0], Concat(lines[1..]));
      BreaksAdd(l, Concat(rest));
    }
  }

  /** The list of changes is empty exactly when the text stays as it is, whatever the tags. */
  lemma NoChangeIff(text: string, mapping: Dict)
    ensures RewriteText(text, mapping) == text <==> AllChanges(SplitLinesKeep(text), mapping) == []
  {
    hide SplitLinesKeep, NewTagFits;
    var lines := SplitLinesKeep(text);
    KeepSplits(text);
    SameLinesIff(lines, mapping);
    if RewriteText(text, mapping) == text {
      LinesGainBreaks(lines, mapping);
      RewritesLineByLine(text, mapping);
    }
  }

  lemma {:induction false} SameLinesIff(lines: seq<string>, mapping: Dict)
    ensures RewriteAll(lines, mapping) == lines <==> AllChanges(lines, mapping) == []
  {
    hide RewriteLine;
    if lines != [] {
      SameLineIff(lines[0], mapping);
      SameLinesIff(lines[1..], mapping);
      assert lines == [lines[0]] + lines[1..];
    }
  }

  lemma SameLineIff(line: string, mapping: Dict)
    ensures RewriteLine(line, mapping).0 == line <==> RewriteLine(line, mapping).1 == []
  {
    hide Match, Line, CatalogTag;
    if Match(line).Some? && CatalogTag(mapping, Match(line).value.repo).Some? {
      var p, t := Match(line).value, CatalogTag(mapping, Match(line).value.repo).value;
      MatchSound(line);
      LineCut(p);
      LineCut(p.(tag := t));
      assert Front(p.(tag := t)) == Front(p) && Back(p.(tag := t)) == Back(p);
      if Line(p.(tag := t)) == line {
        SameMiddle(Front(p), p.tag, t, Back(p));
      }
    }
  }

  lemma SameMiddle(x: string, a: string, b: string, y: string)
    requires x + (a + y) == x + (b + y)
    ensures a == b
  {
    assert a == (x + (a + y))[|x|..|x| + |a|];
    assert b == (x + (b + y))[|x|..|x| + |b|];
  }

  lemma {:induction false} NoChangesIffCarried(lines: seq<string>, mapping: Dict)
    ensures AllChanges(lines, mapping) == [] <==> forall i | 0 <= i < |lines| :: CarriesTag(lines[i], mapping)
  {
    hide Match, CatalogTag;
    if lines != [] {
      assert RewriteLine(lines[0], mapping).1 == [] <==> CarriesTag(lines[0], mapping);
      NoChangesIffCarried(lines[1..], mapping);
      assert forall i | 1 <= i < |lines| :: lines[i] == lines[1..][i - 1];
      assert forall i | 0 <= i < |lines[1..]| :: lines[1..][i] == lines[i + 1];
    }
  }

  /** For any text and any catalog, whatever its tags: a second pass changes nothing if and only
      if after the first every line that names a catalogued image has the catalog's tag. */
  lemma SecondPassIff(text: string, mapping: Dict)
    ensures RewriteText(RewriteText(text, mapping), mapping) == RewriteText(text, mapping)
       <==> AllCarry(RewriteText(text, mapping), mapping)
  {
    hide RewriteText, SplitLinesKeep, CarriesTag;
    NoChangeIff(RewriteText(text, mapping), mapping);
    NoChangesIffCarried(SplitLinesKeep(RewriteText(text, mapping)), mapping);
  }

  // ---- tags with a line break ----

  lemma {:induction false} FirstLineIsCut(x: string, rest: string)
    requires SingleLine(x)
    ensures SplitLinesKeep(x + "\n" + rest) == [x + "\n"] + SplitLinesKeep(rest)
  {
    hide IsLineBreak;
    var s := x + "\n" + rest;
    NewlineIsBreak();
    if x == "" {
      assert s == "\n" + rest && s[1..] == rest && s[..1] == "\n";
    } else {
      assert s[1..] == x[1..] + "\n" + rest;
      FirstLineIsCut(x[1..], rest);
      assert [x[0]] + (x[1..] + "\n") == x + "\n";
    }
  }

  /** A catalogued tag that begins with tag characters and then a newline, whatever follows, is
      put in for good: its own first line is read as an image line with a shorter tag. */
  lemma TagWithNewlineBreaks(mapping: Dict, repo: string, first: string, rest: string) returns (text: string)
    requires Plain(repo) && first != "" && All(first, TagChar)
    requires CatalogTag(mapping, repo) == Some(first + "\n" + rest)
    ensures RewriteText(RewriteText(text, mapping), mapping) != RewriteText(text, mapping)
  {
    hide SplitLinesKeep, Match, Line, CatalogTag, SingleLine, IsSpace, Shaped, CarriesTag, RewriteText, All;
    var p, t := Example("", repo, ""), first + "\n" + rest;
    text := Line(p);
    assert SingleLine("x") by { XIsATag(); }
    ExampleIsALine("", repo, "", "x");
    assert p.(tag := "x") == p;
    MatchOfLine(p);
    OneLineText(text, mapping);
    XHasNoNewline(first, rest);
    assert RewriteText(text, mapping) == Line(p.(tag := t));
    FirstLineOfTag(repo, first, rest);
    var q := p.(tag := first, tail := "\n");
    FirstIsShaped(repo, first);
    MatchOfLine(q);
    assert !CarriesTag(Line(q), mapping) by { WrongTag(q, mapping, t); }
    SecondPassIff(text, mapping);
    assert SplitLinesKeep(RewriteText(text, mapping))[0] == Line(q);
  }

  lemma XHasNoNewline(first: string, rest: string)
    requires first != ""
    ensures first + "\n" + rest != "x"
  {
    assert |first + "\n" + rest| > 1;
  }

  lemma FirstLineOfTag(repo: string, first: string, rest: string)
    requires Plain(repo) && All(first, TagChar)
    ensures var p := Example("", repo, "");
            var lines := SplitLinesKeep(Line(p.(tag := first + "\n" + rest)));
            lines != [] && lines[0] == Line(p.(tag := first, tail := "\n"))
  {
    hide SplitLinesKeep, Line, SingleLine, IsSpace;
    var p := Example("", repo, "");
    var long, short := p.(tag := first + "\n" + rest), p.(tag := first, tail := "\n");
    LineCut(long);
    LineCut(short);
    ExampleFront("", repo, "", first + "\n" + rest);
    InkIsSingleLine(first, TagChar);
    SingleLineConcat(Front(long), first);
    FirstLineIsCut(Front(long) + first, rest);
    assert Back(long) == "" && Back(short) == "\n" && Front(short) == Front(long);
    assert Line(long) == Front(long) + first + "\n" + rest;
    assert Line(short) == Front(long) + first + "\n";
  }

  lemma FirstIsShaped(repo: string, first: string)
    requires Plain(repo) && first != "" && All(first, TagChar)
    ensures Shaped(Example("", repo, "").(tag := first, tail := "\n"))
  {
  }

  lemma WrongTag(q: Parts, mapping: Dict, t: string)
    requires Match(Line(q)) == Some(q) && CatalogTag(mapping, q.repo) == Some(t) && q.tag != t
    ensures !CarriesTag(Line(q), mapping)
  {
  }

  // ---- where the tags come from ----

  /** The tag of the first entry of the catalog for a repository. */
  function FirstTag(entries: seq<Entry>, resolved: map<string, string>, repo: string): Option<string> {
    if entries == [] then None
    else
      var e := entries[|entries| - 1];
      OrElse(FirstTag(entries[..|entries| - 1], resolved, repo),
             if e.repo == repo then Resolve(e.template, resolved) else None)
  }

  lemma TagOfReference(repo: string, tag: string)
    requires Plain(repo)
    ensures TagOf(repo + ":" + tag) == tag
  {
    hide IsSpace, TagOf;
    TagBehindColon(repo, tag);
  }

  /** With the map built from the catalog, a repository gets the tag of its first entry. */
  lemma {:induction false} CatalogTagIsFirst(
      entries: seq<Entry>, resolved: map<string, string>, mapping: Dict, repo: string)
    requires References(entries, resolved).Some? && Plain(repo)
    requires Get(mapping, repo) == Get(References(entries, resolved).value, repo)
    ensures CatalogTag(mapping, repo) == FirstTag(entries, resolved, repo)
  {
    hide Plain, Resolve, TagOf;
    if entries != [] {
      var e, init := entries[|entries| - 1], entries[..|entries| - 1];
      var refs := References(init, resolved).value;
      var tag := Resolve(e.template, resolved).value;
      CatalogTagIsFirst(init, resolved, refs, repo);
      GetConcat(refs, [(e.repo, e.repo + ":" + tag)], repo);
      if e.repo == repo {
        TagOfReference(repo, tag);
      }
    }
  }
}
