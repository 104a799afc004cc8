/** The line pattern `_IMAGE_LINE` of `scripts/gitops/render_overlays.py`: what it matches, and
    that it can be read in one way only. */
module ImageLines {
  import opened Text

  // ---- the shape of an image line ----

  datatype CharClass = Space | RepoChar | TagChar

  predicate In(c: char, kind: CharClass) {
    match kind
    case Space => IsSpace(c)
    case RepoChar => c != ':' && c != '"' && c != '\'' && !IsSpace(c)
    case TagChar => c != '"' && c != '\'' && c != '#' && !IsSpace(c)
  }

  predicate All(s: string, kind: CharClass) {
    forall i | 0 <= i < |s| :: In(s[i], kind)
  }

  /** What the groups of `_IMAGE_LINE` capture, with the first one taken apart, and the
      newline that `$` may leave over. */
  datatype Parts = Parts(
    lead: string, dash: string, gap: string, quote: string, repo: string, tag: string, comment: string, tail: string)

  const IMAGE := "image:"

  predicate IsDash(s: string) {
    s == "" || (s[0] == '-' && All(s[1..], Space))
  }

  predicate IsQuote(s: string) {
    s == "" || s == "\"" || s == "'"
  }

  /** `\s*#.*`, where the dot stops at a newline. */
  predicate IsComment(s: string, n: nat) {
    n < |s| && All(s[..n], Space) && s[n] == '#' && '\n' !in s[n..]
  }

  ghost predicate Shaped(p: Parts) {
    && All(p.lead, Space) && IsDash(p.dash) && All(p.gap, Space) && IsQuote(p.quote)
    && p.repo != "" && All(p.repo, RepoChar)
    && p.tag != "" && All(p.tag, TagChar)
    && (p.comment == "" || exists n: nat :: IsComment(p.comment, n))
    && (p.tail == "" || p.tail == "\n")
  }

  /** A quoted reference and what follows it. */
  function Ref(quote: string, repo: string, tag: string, rest: string): string {
    quote + (repo + (":" + (tag + (quote + rest))))
  }

  /** The line the parts come from. */
  function Line(p: Parts): string {
    p.lead + (p.dash + (IMAGE + (p.gap + Ref(p.quote, p.repo, p.tag, p.comment + p.tail))))
  }

  // ---- matching ----

  /** Length of the longest start of `s` in the class. */
  function Run(s: string, kind: CharClass): (n: nat)
    ensures n <= |s| && All(s[..n], kind)
    ensures n < |s| ==> !In(s[n], kind)
  {
    if s == "" || !In(s[0], kind) then 0 else 1 + Run(s[1..], kind)
  }

  function TakeRun(s: string, kind: CharClass): (r: (string, string))
    ensures r.0 + r.1 == s && All(r.0, kind)
  {
    (s[..Run(s, kind)], s[Run(s, kind)..])
  }

  lemma DashInFront(s: string, spaces: string, rest: string)
    requires s != "" && s[0] == '-' && spaces + rest == s[1..] && All(spaces, Space)
    ensures "-" + spaces + rest == s && IsDash("-" + spaces)
  {
    hide IsSpace;
    assert ("-" + spaces)[1..] == spaces;
    assert s == "-" + s[1..];
  }

  function TakeDash(s: string): (r: (string, string))
    ensures r.0 + r.1 == s && IsDash(r.0)
  {
    if s != "" && s[0] == '-' then
      var (spaces, rest) := TakeRun(s[1..], Space);
      DashInFront(s, spaces, rest);
      ("-" + spaces, rest)
    else ("", s)
  }

  function TakeQuote(s: string): (r: (string, string))
    ensures r.0 + r.1 == s && IsQuote(r.0)
  {
    if s != "" && (s[0] == '"' || s[0] == '\'') then (s[..1], s[1..]) else ("", s)
  }

  /** `(\s*#.*)?$` */
  function TakeEnding(s: string): (r: Option<(string, string)>) {
    var n := Run(s, Space);
    if n < |s| && s[n] == '#' then
      var k := n + IndexOf(s[n..], '\n');
      if k + 1 < |s| then None else Some((s[..k], s[k..]))
    else if s == "" || s == "\n" then Some(("", s))
    else None
  }

  /** The part of the pattern behind the prefix. */
  function MatchRef(s: string): Option<(string, string, string, string)> {
    var (quote, s1) := TakeQuote(s);
    var (repo, s2) := TakeRun(s1, RepoChar);
    if repo == "" || s2 == "" || s2[0] != ':' then None
    else
      var (tag, s3) := TakeRun(s2[1..], TagChar);
      if tag == "" || !(quote <= s3) then None else Some((quote, repo, tag, s3[|quote|..]))
  }

  /** `_IMAGE_LINE` applied to a line. */
  function Match(line: string): Option<Parts> {
    var (lead, s1) := TakeRun(line, Space);
    var (dash, s2) := TakeDash(s1);
    if !(IMAGE <= s2) then None
    else
      var (gap, s3) := TakeRun(s2[|IMAGE|..], Space);
      Finish(lead, dash, gap, MatchRef(s3))
  }

  function Finish(lead: string, dash: string, gap: string, ref: Option<(string, string, string, string)>)
      : Option<Parts>
  {
    match ref
    case None => None
    case Some((quote, repo, tag, rest)) =>
      match TakeEnding(rest)
      case None => None
      case Some((comment, tail)) => Some(Parts(lead, dash, gap, quote, repo, tag, comment, tail))
  }

  // ---- the pattern is unambiguous ----

  lemma {:induction false} RunOf(x: string, rest: string, kind: CharClass)
    requires All(x, kind) && (rest == "" || !In(rest[0], kind))
    ensures TakeRun(x + rest, kind) == (x, rest)
  {
    if x == "" {
      assert x + rest == rest;
    } else {
      assert (x + rest)[1..] == x[1..] + rest;
      RunOf(x[1..], rest, kind);
      RunFromTake(x[1..] + rest, kind, x[1..], rest);
    }
  }

  lemma RunFromTake(s: string, kind: CharClass, x: string, rest: string)
    requires TakeRun(s, kind) == (x, rest)
    ensures Run(s, kind) == |x|
  {
  }

  lemma DashOf(dash: string, rest: string)
    requires IsDash(dash) && rest != "" && rest[0] == 'i'
    ensures TakeDash(dash + rest) == (dash, rest)
  {
    hide IsSpace;
    NotASpace();
    if dash == "" {
      assert dash + rest == rest;
    } else {
      assert (dash + rest)[1..] == dash[1..] + rest;
      RunOf(dash[1..], rest, Space);
      assert dash == "-" + dash[1..];
    }
  }

  lemma NotASpace()
    ensures !IsSpace('i') && !IsSpace('-') && !IsSpace('#') && !IsSpace('"') && !IsSpace('\'') && !IsSpace(':')
    ensures IsSpace('\n')
  {
  }

  lemma QuoteOf(quote: string, rest: string)
    requires IsQuote(quote) && rest != "" && rest[0] != '"' && rest[0] != '\''
    ensures TakeQuote(quote + rest) == (quote, rest)
  {
    if quote == "" {
      assert quote + rest == rest;
    } else {
      assert (quote + rest)[1..] == rest;
    }
  }

  lemma EndingOf(comment: string, tail: string)
    requires comment == "" || exists n: nat :: IsComment(comment, n)
    requires tail == "" || tail == "\n"
    ensures TakeEnding(comment + tail) == Some((comment, tail))
  {
    hide IsSpace;
    NotASpace();
    var s := comment + tail;
    if comment == "" {
      assert s == tail;
      assert tail != "" ==> tail[1..] == "" && Run(tail, Space) == 1;
    } else {
      var n: nat :| IsComment(comment, n);
      assert s == comment[..n] + (comment[n..] + tail);
      RunOf(comment[..n], comment[n..] + tail, Space);
      RunFromTake(s, Space, comment[..n], comment[n..] + tail);
      assert s[n..] == comment[n..] + tail;
      NewlineIn(comment[n..], tail);
    }
  }

  lemma NewlineIn(s: string, tail: string)
    requires '\n' !in s && (tail == "" || tail == "\n")
    ensures IndexOf(s + tail, '\n') == |s|
  {
    if tail != "" {
      IndexOfUnique(s + tail, '\n', |s|);
    }
  }

  lemma EndingSound(s: string)
    requires TakeEnding(s).Some?
    ensures var (comment, tail) := TakeEnding(s).value;
            && s == comment + tail
            && (comment == "" || exists n: nat :: IsComment(comment, n))
            && (tail == "" || tail == "\n")
  {
    hide IsSpace;
    var n := Run(s, Space);
    if n < |s| && s[n] == '#' {
      var k := n + IndexOf(s[n..], '\n');
      assert s[k..] == "" || s[k..] == "\n" by {
        assert k < |s| ==> s[k] == s[n..][k - n];
      }
      CommentCut(s, n, k);
    }
  }

  lemma CommentCut(s: string, n: nat, k: nat)
    requires n < k <= |s| && All(s[..n], Space) && s[n] == '#' && k == n + IndexOf(s[n..], '\n')
    ensures s == s[..k] + s[k..] && IsComment(s[..k], n)
  {
    hide IsSpace, All, IndexOf;
    assert s[..k][..n] == s[..n];
    assert s[..k][n..] == s[n..][..k - n];
  }

  /** Quote and repository are read the same whatever stands for the tag. */
  lemma RefRead(quote: string, repo: string, u: string)
    requires IsQuote(quote) && repo != "" && All(repo, RepoChar)
    ensures MatchRef(quote + (repo + (":" + u))) ==
            var (tag, s) := TakeRun(u, TagChar);
            if tag == "" || !(quote <= s) then None else Some((quote, repo, tag, s[|quote|..]))
  {
    hide IsSpace, Run, TakeRun, TakeQuote;
    NotASpace();
    var s2 := ":" + u;
    QuoteOf(quote, repo + s2);
    RunOf(repo, s2, RepoChar);
    assert s2[1..] == u;
  }

  lemma RefOf(quote: string, repo: string, tag: string, rest: string)
    requires IsQuote(quote) && repo != "" && All(repo, RepoChar) && tag != "" && All(tag, TagChar)
    requires quote == "" ==> rest == "" || !In(rest[0], TagChar)
    ensures MatchRef(Ref(quote, repo, tag, rest)) == Some((quote, repo, tag, rest))
  {
    hide IsSpace, Run, TakeRun, TakeQuote, MatchRef;
    var s3 := quote + rest;
    RefRead(quote, repo, tag + s3);
    assert quote == "" ==> s3 == rest;
    RunOf(tag, s3, TagChar);
    assert s3[|quote|..] == rest;
  }

  lemma RefSound(s: string)
    requires MatchRef(s).Some?
    ensures var (quote, repo, tag, rest) := MatchRef(s).value;
            && s == Ref(quote, repo, tag, rest)
            && IsQuote(quote) && repo != "" && All(repo, RepoChar) && tag != "" && All(tag, TagChar)
  {
    hide IsSpace, TakeRun, TakeQuote, IsQuote, All;
    var (quote, s1) := TakeQuote(s);
    var (repo, s2) := TakeRun(s1, RepoChar);
    var (tag, s3) := TakeRun(s2[1..], TagChar);
    assert s2 == ":" + s2[1..];
    assert s3 == quote + s3[|quote|..];
  }

  lemma EndingStarts(comment: string, tail: string)
    requires comment == "" || exists n: nat :: IsComment(comment, n)
    requires tail == "" || tail == "\n"
    ensures comment + tail == "" || !In((comment + tail)[0], TagChar)
  {
    hide IsSpace;
    NotASpace();
    if comment != "" {
      var n: nat :| IsComment(comment, n);
      assert n > 0 ==> In(comment[..n][0], Space);
      assert (comment + tail)[0] == comment[0];
    } else {
      assert comment + tail == tail;
    }
  }

  lemma RefStarts(quote: string, repo: string, tag: string, rest: string)
    requires IsQuote(quote) && repo != "" && All(repo, RepoChar)
    ensures var s := Ref(quote, repo, tag, rest); s != "" && !IsSpace(s[0])
  {
    hide IsSpace;
    NotASpace();
    assert Ref(quote, repo, tag, rest)[0] == if quote == "" then repo[0] else quote[0];
  }

  /** The start of a line is read the same whatever follows the gap. */
  lemma PrefixRead(lead: string, dash: string, gap: string, s3: string)
    requires All(lead, Space) && IsDash(dash) && All(gap, Space) && s3 != "" && !IsSpace(s3[0])
    ensures Match(lead + (dash + (IMAGE + (gap + s3)))) == Finish(lead, dash, gap, MatchRef(s3))
  {
    hide IsSpace, Run, TakeRun, TakeDash, IsDash, MatchRef, TakeEnding, All;
    NotASpace();
    var s2 := IMAGE + (gap + s3);
    assert s2[0] == 'i' && s2[|IMAGE|..] == gap + s3;
    DashStarts(dash, s2);
    RunOf(lead, dash + s2, Space);
    DashOf(dash, s2);
    RunOf(gap, s3, Space);
  }

  /** The pattern finds the parts of every line that has its shape. */
  lemma MatchOfLine(p: Parts)
    requires Shaped(p)
    ensures Match(Line(p)) == Some(p)
  {
    hide IsSpace, IsDash, IsQuote, IsComment, Match, MatchRef, TakeEnding, Ref, All;
    RefStarts(p.quote, p.repo, p.tag, p.comment + p.tail);
    PrefixRead(p.lead, p.dash, p.gap, Ref(p.quote, p.repo, p.tag, p.comment + p.tail));
    EndingStarts(p.comment, p.tail);
    RefOf(p.quote, p.repo, p.tag, p.comment + p.tail);
    EndingOf(p.comment, p.tail);
  }

  lemma DashStarts(dash: string, rest: string)
    requires IsDash(dash) && rest != "" && rest[0] == 'i'
    ensures var s := dash + rest; s != "" && !IsSpace(s[0])
  {
    hide IsSpace;
    NotASpace();
    assert (dash + rest)[0] == if dash == "" then rest[0] else dash[0];
  }

  /** What the pattern finds are the parts of the line. */
  lemma MatchSound(line: string)
    requires Match(line).Some?
    ensures var p := Match(line).value; Shaped(p) && Line(p) == line
  {
    hide IsSpace, Run, TakeRun, TakeDash, IsDash, IsQuote, IsComment, MatchRef, TakeEnding, Ref, All;
    var (lead, s1) := TakeRun(line, Space);
    var (dash, s2) := TakeDash(s1);
    var (gap, s3) := TakeRun(s2[|IMAGE|..], Space);
    RefSound(s3);
    var (_, _, _, s4) := MatchRef(s3).value;
    EndingSound(s4);
    assert s2 == IMAGE + s2[|IMAGE|..];
  }

  /** The pattern has exactly one reading: it matches a line with these groups exactly when
      they have its shape and make up the line. */
  lemma MatchIff(line: string, p: Parts)
    ensures Match(line) == Some(p) <==> Shaped(p) && Line(p) == line
  {
    hide Shaped, Line, Match;
    if Shaped(p) && Line(p) == line {
      MatchOfLine(p);
    }
    if Match(line) == Some(p) {
      MatchSound(line);
    }
  }

  // ---- the pattern, group by group ----

  predicate FreeOf(s: string, others: string) {
    s != "" && forall i | 0 <= i < |s| :: s[i] !in others && !IsSpace(s[i])
  }

  /** The groups one behind the other. */
  function TextOf(p: Parts): string {
    p.lead + p.dash + "image:" + p.gap + p.quote + p.repo + ":" + p.tag + p.quote + p.comment + p.tail
  }

  /** Blanks, perhaps a dash and blanks, `image:` and blanks; a reference in quotes of one kind or
      in none, with a colon between the repository and the tag; perhaps blanks and a comment to
      the end of the line, or to its newline. */
  ghost predicate Reads(line: string, p: Parts) {
    && line == TextOf(p)
    && AllSpace(p.lead) && AllSpace(p.gap) && (p.dash == "" || (p.dash[0] == '-' && AllSpace(p.dash[1..])))
    && p.quote in {"", "\"", "'"} && FreeOf(p.repo, ":\"'") && FreeOf(p.tag, "\"'#")
    && (p.comment == "" || exists n: nat :: StartsComment(p.comment, n))
    && p.tail in {"", "\n"}
  }

  predicate StartsComment(s: string, n: nat) {
    n < |s| && AllSpace(s[..n]) && s[n] == '#' && forall i | n <= i < |s| :: s[i] != '\n'
  }

  lemma LineText(p: Parts)
    ensures Line(p) == TextOf(p)
  {
    var s1, end := p.lead + p.dash, p.comment + p.tail;
    var s2 := s1 + "image:";
    var s3 := s2 + p.gap;
    var s4 := s3 + p.quote;
    var s5 := s4 + p.repo;
    var s6 := s5 + ":";
    var s7 := s6 + p.tag;
    assert s7 + p.quote + p.comment + p.tail == s7 + (p.quote + end);
    assert s7 + (p.quote + end) == s6 + (p.tag + (p.quote + end));
    assert s6 + (p.tag + (p.quote + end)) == s5 + (":" + (p.tag + (p.quote + end)));
    assert s5 + (":" + (p.tag + (p.quote + end))) == s4 + (p.repo + (":" + (p.tag + (p.quote + end))));
    var ref := Ref(p.quote, p.repo, p.tag, end);
    assert s4 + (p.repo + (":" + (p.tag + (p.quote + end)))) == s3 + ref;
    assert s3 + ref == s2 + (p.gap + ref);
    assert s2 + (p.gap + ref) == s1 + ("image:" + (p.gap + ref));
    assert s1 + ("image:" + (p.gap + ref)) == p.lead + (p.dash + ("image:" + (p.gap + ref)));
  }

  lemma ClassesAre(s: string)
    ensures All(s, Space) <==> AllSpace(s)
    ensures s != "" && All(s, RepoChar) <==> FreeOf(s, ":\"'")
    ensures s != "" && All(s, TagChar) <==> FreeOf(s, "\"'#")
  {
    hide IsSpace;
    assert forall c :: c in ":\"'" <==> c == ':' || c == '"' || c == '\'';
    assert forall c :: c in "\"'#" <==> c == '"' || c == '\'' || c == '#';
  }

  lemma CommentIs(s: string, n: nat)
    ensures IsComment(s, n) <==> StartsComment(s, n)
  {
    hide IsSpace;
    if n < |s| {
      ClassesAre(s[..n]);
      assert '\n' !in s[n..] <==> forall i | n <= i < |s| :: s[i] != '\n' by {
        assert forall i | n <= i < |s| :: s[i] == s[n..][i - n];
      }
    }
  }

  /** `_IMAGE_LINE` matches a line with these groups exactly if it reads so. */
  lemma MatchReads(line: string, p: Parts)
    ensures Match(line) == Some(p) <==> Reads(line, p)
  {
    hide IsSpace, Match, Line, All, AllSpace, FreeOf, IsComment, StartsComment, TextOf;
    MatchIff(line, p);
    LineText(p);
    ClassesAre(p.lead);
    ClassesAre(p.gap);
    ClassesAre(p.repo);
    ClassesAre(p.tag);
    if p.dash != "" {
      ClassesAre(p.dash[1..]);
    }
    forall n: nat ensures IsComment(p.comment, n) <==> StartsComment(p.comment, n) {
      CommentIs(p.comment, n);
    }
  }
}
