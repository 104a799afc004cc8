/** `scripts/gitops/component_versions.py`: environment files, tag templates and the map of
    image references, all built with `setdefault`, so that the first value wins. */
module Catalog {
  import opened Text

  // ---- dictionaries in insertion order ----

  type Dict = seq<(string, string)>

  /** The value of the first pair with this key. */
  function Get(d: Dict, key: string): Option<string> {
    if d == [] then None else if d[0].0 == key then Some(d[0].1) else Get(d[1..], key)
  }

  predicate DistinctKeys(d: Dict) {
    d == [] || (Get(d[1..], d[0].0) == None && DistinctKeys(d[1..]))
  }

  function OrElse(a: Option<string>, b: Option<string>): Option<string> {
    if a.Some? then a else b
  }

  lemma {:induction false} GetConcat(a: Dict, b: Dict, key: string)
    ensures Get(a + b, key) == OrElse(Get(a, key), Get(b, key))
  {
    if a == [] {
      assert a + b == b;
    } else {
      assert (a + b)[1..] == a[1..] + b;
      GetConcat(a[1..], b, key);
    }
  }

  /** `d.setdefault(key, value)` */
  function SetDefault(d: Dict, key: string, value: string): Dict {
    if Get(d, key).Some? then d else d + [(key, value)]
  }

  lemma {:induction false} SetDefaultKeepsKeys(d: Dict, key: string, value: string)
    requires DistinctKeys(d)
    ensures DistinctKeys(SetDefault(d, key, value))
  {
    if d != [] && Get(d, key) == None {
      SetDefaultKeepsKeys(d[1..], key, value);
      assert (d + [(key, value)])[1..] == d[1..] + [(key, value)];
      GetConcat(d[1..], [(key, value)], d[0].0);
    }
  }

  /** Setting defaults one after the other finds what the dictionary had, or else the first
      of the defaults. */
  lemma SetDefaultIsFirst(before: Dict, d: Dict, pairs: Dict, key: string, value: string)
    requires forall k :: Get(d, k) == OrElse(Get(before, k), Get(pairs, k))
    ensures forall k :: Get(SetDefault(d, key, value), k) == OrElse(Get(before, k), Get(pairs + [(key, value)], k))
  {
    hide Get;
    forall k
      ensures Get(SetDefault(d, key, value), k) == OrElse(Get(before, k), Get(pairs + [(key, value)], k))
    {
      GetConcat(d, [(key, value)], k);
      GetConcat(pairs, [(key, value)], k);
      GetOne(key, value, k);
    }
  }

  lemma GetOne(key: string, value: string, k: string)
    ensures Get([(key, value)], k) == if k == key then Some(value) else None
  {
  }

  // ---- load_dotenv ----

  const EXPORT := "export "

  function StripLeft(s: string, c: char): string {
    if s != "" && s[0] == c then StripLeft(s[1..], c) else s
  }

  function StripRight(s: string, c: char): string {
    if s != "" && s[|s| - 1] == c then StripRight(s[..|s| - 1], c) else s
  }

  /** `s.strip(c)` */
  function StripOf(s: string, c: char): string {
    StripRight(StripLeft(s, c), c)
  }

  /** `s.split(" #", 1)[0]` */
  function BeforeComment(s: string): string {
    if s == "" || " #" <= s then "" else [s[0]] + BeforeComment(s[1..])
  }

  /** What a line of an environment file assigns, if anything. */
  function Assignment(raw: string): Option<(string, string)> {
    var stripped := Strip(raw);
    if stripped == "" || stripped[0] == '#' || '=' !in stripped then None
    else KeyValue(if EXPORT <= stripped then stripped[|EXPORT|..] else stripped)
  }

  /** `line.partition("=")`, with comment and quotes taken off the value. */
  function KeyValue(line: string): Option<(string, string)> {
    var n := IndexOf(line, '=');
    var key := Strip(line[..n]);
    var value := if n == |line| then "" else StripOf(StripOf(Strip(BeforeComment(line[n + 1..])), '"'), '\'');
    if key != "" && value != "" then Some((key, value)) else None
  }

  // ---- what an assignment looks like ----

  predicate NoCommentSign(s: string) {
    forall i | 0 <= i < |s| - 1 :: !(s[i] == ' ' && s[i + 1] == '#')
  }

  predicate IsQuoteMark(c: char) {
    c == '"' || c == '\''
  }

  /** A value that needs no care: stripped, with ends that are no quotes, and no comment sign. */
  predicate PlainValue(value: string) {
    && value != "" && Stripped(value) && NoCommentSign(value)
    && !IsQuoteMark(value[0]) && !IsQuoteMark(value[|value| - 1])
  }

  predicate PlainName(key: string) {
    && key != "" && Stripped(key) && key[0] != '#' && '=' !in key && !(EXPORT <= key)
  }

  predicate TrailingComment(s: string) {
    s == "" || (" #" <= s && !IsSpace(s[|s| - 1]))
  }

  lemma {:induction false} BeforeCommentOf(x: string, rest: string)
    requires NoCommentSign(x) && (x == "" || x[|x| - 1] != ' ') && (rest == "" || " #" <= rest)
    ensures BeforeComment(x + rest) == x
  {
    var s := x + rest;
    if x == "" {
      assert s == rest;
    } else {
      assert s[0] == x[0] && (|x| > 1 ==> s[1] == x[1]);
      assert !(" #" <= s);
      assert s[1..] == x[1..] + rest;
      BeforeCommentOf(x[1..], rest);
      assert [x[0]] + x[1..] == x;
    }
  }

  lemma StripOfBare(s: string, c: char)
    requires s != "" && s[0] != c && s[|s| - 1] != c
    ensures StripOf(s, c) == s
  {
  }

  lemma StripOfQuoted(value: string, c: char)
    requires value != "" && value[0] != c && value[|value| - 1] != c
    ensures StripOf([c] + value + [c], c) == value
  {
    var s := [c] + value + [c];
    var t := value + [c];
    assert s[1..] == t;
    assert t[0] != c && StripLeft(s, c) == t;
    assert t[|t| - 1] == c && t[..|t| - 1] == value;
    assert StripRight(t, c) == StripRight(value, c) == value;
  }

  /** A quoted or bare value is unquoted. */
  lemma Unquoted(quote: string, value: string)
    requires PlainValue(value) && (quote == "" || quote == "\"" || quote == "'")
    ensures StripOf(StripOf(quote + value + quote, '"'), '\'') == value
  {
    var s := quote + value + quote;
    StripOfBare(value, '\'');
    StripOfBare(value, '"');
    if quote == "" {
      assert s == value;
    } else if quote == "'" {
      StripOfBare(s, '"');
      StripOfQuoted(value, '\'');
    } else {
      StripOfQuoted(value, '"');
    }
  }

  lemma QuotedText(quote: string, value: string, comment: string)
    requires PlainValue(value) && (quote == "" || quote == "\"" || quote == "'") && TrailingComment(comment)
    ensures var q := quote + value + quote; Strip(BeforeComment(q + comment)) == q
  {
    hide IsSpace;
    QuotesAreInk();
    var q := quote + value + quote;
    assert q[0] == if quote == "" then value[0] else quote[0];
    assert q[|q| - 1] == if quote == "" then value[|value| - 1] else quote[0];
    assert forall i | 0 <= i < |value| :: q[|quote| + i] == value[i];
    assert quote != "" ==> q[|value| + 1] == quote[0];
    BeforeCommentOf(q, comment);
    StripOfStripped(q);
  }

  lemma QuotesAreInk()
    ensures !IsSpace('"') && !IsSpace('\'') && !IsSpace('e') && !IsSpace('=') && IsSpace(' ')
  {
  }

  /** `key=value`, exported or not, quoted or bare, with a comment or without. */
  function AssignmentLine(exported: bool, key: string, quote: string, value: string, comment: string): string {
    var line := key + ("=" + (quote + value + quote + comment));
    if exported then EXPORT + line else line
  }

  lemma KeyValueReads(key: string, quote: string, value: string, comment: string)
    requires PlainName(key) && PlainValue(value) && TrailingComment(comment)
    requires quote == "" || quote == "\"" || quote == "'"
    ensures KeyValue(key + ("=" + (quote + value + quote + comment))) == Some((key, value))
  {
    hide IsSpace, BeforeComment, StripOf, Strip, PlainValue, PlainName, IndexOf, TrailingComment;
    var text := quote + value + quote + comment;
    CutAtEquals(key, text);
    StripOfStripped(key);
    QuotedText(quote, value, comment);
    Unquoted(quote, value);
    assert value != "" by { NotEmpty(value); }
  }

  lemma CutAtEquals(key: string, text: string)
    requires PlainName(key)
    ensures var line := key + ("=" + text);
            && IndexOf(line, '=') == |key| && line[..|key|] == key && line[|key| + 1..] == text
    ensures Stripped(key) && key != ""
  {
    hide IsSpace;
    var line := key + ("=" + text);
    assert line[|key|] == '=';
    assert forall i | 0 <= i < |key| :: line[i] == key[i] && key[i] in key;
    IndexOfUnique(line, '=', |key|);
  }

  lemma NotEmpty(value: string)
    requires PlainValue(value)
    ensures value != ""
  {
  }

  /** Such a line assigns the value to the key. */
  lemma AssignmentReads(exported: bool, key: string, quote: string, value: string, comment: string)
    requires PlainName(key) && PlainValue(value) && TrailingComment(comment)
    requires quote == "" || quote == "\"" || quote == "'"
    ensures Assignment(AssignmentLine(exported, key, quote, value, comment)) == Some((key, value))
  {
    hide IsSpace, KeyValue, Strip, Stripped, PlainValue;
    var text := quote + value + quote + comment;
    var line := key + ("=" + text);
    KeyValueReads(key, quote, value, comment);
    LineIsStripped(key, quote, value, comment);
    assert line[|key|] == '=' && line[0] == key[0];
    if exported {
      var raw := EXPORT + line;
      ExportedIsStripped(line);
      StripOfStripped(raw);
      assert raw[0] == 'e' && raw[|EXPORT|..] == line;
      assert raw[|EXPORT| + |key|] == line[|key|];
    } else {
      StripOfStripped(line);
      NotExported(key, "=" + text);
    }
  }

  lemma LineIsStripped(key: string, quote: string, value: string, comment: string)
    requires PlainName(key) && PlainValue(value) && TrailingComment(comment)
    requires quote == "" || quote == "\"" || quote == "'"
    ensures Stripped(key + ("=" + (quote + value + quote + comment)))
  {
    hide IsSpace;
    QuotesAreInk();
    var q := quote + value + quote;
    var line := key + ("=" + (q + comment));
    assert q[|q| - 1] == if quote == "" then value[|value| - 1] else quote[0];
    assert line[0] == key[0];
    assert line[|line| - 1] == if comment == "" then q[|q| - 1] else comment[|comment| - 1];
  }

  lemma ExportedIsStripped(line: string)
    requires line != "" && Stripped(line)
    ensures Stripped(EXPORT + line)
  {
    hide IsSpace;
    QuotesAreInk();
    assert (EXPORT + line)[0] == 'e' && (EXPORT + line)[|EXPORT + line| - 1] == line[|line| - 1];
  }

  lemma NotExported(key: string, rest: string)
    requires PlainName(key) && rest != "" && rest[0] == '='
    ensures !(EXPORT <= key + rest)
  {
    var s := key + rest;
    if |key| < |EXPORT| {
      assert s[|key|] == '=' != EXPORT[|key|];
    } else {
      assert s[..|EXPORT|] == key[..|EXPORT|];
    }
  }

  /** A line that is blank, starts with a comment sign, or has no equals sign assigns nothing. */
  lemma NothingAssigned(before: string, text: string, after: string)
    requires AllSpace(before) && AllSpace(after) && Stripped(text)
    requires text == "" || text[0] == '#' || '=' !in text
    ensures Assignment(before + text + after) == None
  {
    StripBetween(before, text, after);
  }

  /** Nor does one with an empty value, quoted or not; the variable keeps its default. */
  lemma EmptyAssignsNothing(exported: bool, key: string, quote: string, comment: string)
    requires PlainName(key) && TrailingComment(comment) && (quote == "" || quote == "\"" || quote == "'")
    ensures Assignment(AssignmentLine(exported, key, quote, "", comment)) == None
  {
    hide IsSpace, KeyValue, Strip, Stripped;
    var text := quote + "" + quote + comment;
    var line := key + ("=" + text);
    EmptyIsNoValue(key, quote, comment);
    EmptyIsStripped(key, quote, comment);
    assert line[|key|] == '=' && line[0] == key[0];
    if exported {
      var raw := EXPORT + line;
      ExportedIsStripped(line);
      StripOfStripped(raw);
      assert raw[0] == 'e' && raw[|EXPORT|..] == line;
    } else {
      StripOfStripped(line);
      NotExported(key, "=" + text);
    }
  }

  lemma EmptyIsStripped(key: string, quote: string, comment: string)
    requires PlainName(key) && TrailingComment(comment) && (quote == "" || quote == "\"" || quote == "'")
    ensures Stripped(key + ("=" + (quote + "" + quote + comment)))
  {
    hide IsSpace;
    QuotesAreInk();
    var q := "=" + (quote + "" + quote);
    var line := key + ("=" + (quote + "" + quote + comment));
    assert line == key + (q + comment);
    assert q[|q| - 1] == if quote == "" then '=' else quote[0];
    assert line[0] == key[0];
    assert line[|line| - 1] == if comment == "" then q[|q| - 1] else comment[|comment| - 1];
  }

  lemma EmptyIsNoValue(key: string, quote: string, comment: string)
    requires PlainName(key) && TrailingComment(comment) && (quote == "" || quote == "\"" || quote == "'")
    ensures KeyValue(key + ("=" + (quote + "" + quote + comment))) == None
  {
    hide IsSpace, BeforeComment, Strip, PlainName, IndexOf, TrailingComment;
    var text := quote + "" + quote + comment;
    CutAtEquals(key, text);
    EmptyQuotes(quote, comment);
  }

  lemma EmptyQuotes(quote: string, comment: string)
    requires TrailingComment(comment) && (quote == "" || quote == "\"" || quote == "'")
    ensures StripOf(StripOf(Strip(BeforeComment(quote + "" + quote + comment)), '"'), '\'') == ""
  {
    hide IsSpace;
    QuotesAreInk();
    var q := quote + "" + quote;
    assert q == if quote == "" then "" else [quote[0], quote[0]];
    BeforeCommentOf(q, comment);
    StripOfStripped(q);
    if quote != "" {
      TwoMarks(quote[0]);
      if quote == "'" {
        StripOfBare(q, '"');
      }
    }
  }

  lemma TwoMarks(c: char)
    ensures StripOf([c, c], c) == ""
  {
    assert StripLeft([c, c], c) == StripLeft([c], c) by {
      assert [c, c][1..] == [c];
    }
    assert StripLeft([c], c) == StripLeft("", c) by {
      assert [c][1..] == "";
    }
  }

  lemma {:induction false} MarksInFront(n: nat, c: char, s: string)
    requires s == "" || s[0] != c
    ensures StripLeft(seq(n, i => c) + s, c) == s
  {
    var t := seq(n, i => c) + s;
    if n == 0 {
      assert t == s;
    } else {
      assert t[1..] == seq(n - 1, i => c) + s;
      MarksInFront(n - 1, c, s);
    }
  }

  lemma {:induction false} MarksBehind(s: string, n: nat, c: char)
    requires s == "" || s[|s| - 1] != c
    ensures StripRight(s + seq(n, i => c), c) == s
  {
    var t := s + seq(n, i => c);
    if n == 0 {
      assert t == s;
    } else {
      assert t[..|t| - 1] == s + seq(n - 1, i => c);
      MarksBehind(s, n - 1, c);
    }
  }

  /** However many quotes there are at either end, `strip` takes them all. */
  lemma QuotesStripped(m: nat, value: string, n: nat, c: char)
    requires value != "" && value[0] != c && value[|value| - 1] != c
    ensures StripOf(seq(m, i => c) + value + seq(n, i => c), c) == value
  {
    var marks := seq(n, i => c);
    assert seq(m, i => c) + value + marks == seq(m, i => c) + (value + marks);
    MarksInFront(m, c, value + marks);
    MarksBehind(value, n, c);
  }

  function AssignmentsOf(lines: seq<string>): Dict {
    if lines == [] then []
    else
      AssignmentsOf(lines[..|lines| - 1]) +
      match Assignment(lines[|lines| - 1])
      case None => []
      case Some(pair) => [pair]
  }

  /** The assignments of all readable files, in the order of files and lines. */
  function AllAssignments(files: seq<Option<string>>): Dict {
    if files == [] then []
    else
      AllAssignments(files[..|files| - 1]) +
      match files[|files| - 1]
      case None => []
      case Some(text) => AssignmentsOf(SplitLines(text))
  }

  /** `load_dotenv`; an unreadable file is `None`. The environment wins over the files, and
      among the files the first assignment wins. */
  method LoadDotenv(environ: Dict, files: seq<Option<string>>) returns (r: Dict)
    requires DistinctKeys(environ)
    ensures DistinctKeys(r)
    ensures forall k :: Get(r, k) == OrElse(Get(environ, k), Get(AllAssignments(files), k))
  {
    hide Get, DistinctKeys, Assignment, SplitLines, SetDefault;
    r := environ;
    GetNothing();
    for i := 0 to |files|
      invariant DistinctKeys(r)
      invariant forall k :: Get(r, k) == OrElse(Get(environ, k), Get(AllAssignments(files[..i]), k))
    {
      assert files[..i + 1][..i] == files[..i];
      if files[i].Some? {
        var lines := SplitLines(files[i].value);
        ghost var before := AllAssignments(files[..i]);
        assert before + AssignmentsOf(lines[..0]) == before;
        for j := 0 to |lines|
          invariant DistinctKeys(r)
          invariant forall k :: Get(r, k) == OrElse(Get(environ, k), Get(before + AssignmentsOf(lines[..j]), k))
        {
          assert lines[..j + 1][..j] == lines[..j];
          ghost var pairs := before + AssignmentsOf(lines[..j]);
          match Assignment(lines[j])
          case None =>
            assert before + AssignmentsOf(lines[..j + 1]) == pairs;
          case Some(pair) =>
            assert before + AssignmentsOf(lines[..j + 1]) == pairs + [pair];
            SetDefaultKeepsKeys(r, pair.0, pair.1);
            SetDefaultIsFirst(environ, r, pairs, pair.0, pair.1);
            r := SetDefault(r, pair.0, pair.1);
        }
        assert lines[..|lines|] == lines;
        assert AllAssignments(files[..i + 1]) == before + AssignmentsOf(lines);
      } else {
        assert AllAssignments(files[..i + 1]) == AllAssignments(files[..i]);
      }
    }
    assert files[..|files|] == files;
  }

  lemma GetNothing()
    ensures forall k :: Get([], k) == None
  {
  }

  /** Of two plain assignments to one variable, wherever else the file may assign to others,
      it is not the last that wins but the first. */
  lemma LastAssignmentLoses(key: string, before: seq<string>, between: seq<string>,
                            exported1: bool, quote1: string, value1: string, comment1: string,
                            exported2: bool, quote2: string, value2: string, comment2: string)
    requires PlainName(key) && Get(AssignmentsOf(before), key) == None
    requires PlainValue(value1) && TrailingComment(comment1) && (quote1 == "" || quote1 == "\"" || quote1 == "'")
    requires PlainValue(value2) && TrailingComment(comment2) && (quote2 == "" || quote2 == "\"" || quote2 == "'")
    ensures var first := AssignmentLine(exported1, key, quote1, value1, comment1);
            var last := AssignmentLine(exported2, key, quote2, value2, comment2);
            && Assignment(first) == Some((key, value1)) && Assignment(last) == Some((key, value2))
            && Get(AssignmentsOf(before + [first] + between + [last]), key) == Some(value1)
  {
    hide Assignment, Get, AssignmentsOf;
    var first := AssignmentLine(exported1, key, quote1, value1, comment1);
    var last := AssignmentLine(exported2, key, quote2, value2, comment2);
    AssignmentReads(exported1, key, quote1, value1, comment1);
    AssignmentReads(exported2, key, quote2, value2, comment2);
    FirstAssignmentWins(before, first, between + [last], key, value1);
    assert before + [first] + between + [last] == before + [first] + (between + [last]);
  }

  lemma FirstAssignmentWins(before: seq<string>, line: string, after: seq<string>, key: string, value: string)
    requires Get(AssignmentsOf(before), key) == None && Assignment(line) == Some((key, value))
    ensures Get(AssignmentsOf(before + [line] + after), key) == Some(value)
  {
    hide Assignment, Get;
    AssignmentsConcat(before + [line], after);
    assert (before + [line])[..|before|] == before;
    GetConcat(AssignmentsOf(before), [(key, value)], key);
    GetOne(key, value, key);
    GetConcat(AssignmentsOf(before + [line]), AssignmentsOf(after), key);
  }

  lemma {:induction false} AssignmentsConcat(a: seq<string>, b: seq<string>)
    ensures AssignmentsOf(a + b) == AssignmentsOf(a) + AssignmentsOf(b)
  {
    hide Assignment;
    if b == [] {
      assert a + b == a;
    } else {
      assert (a + b)[..|a + b| - 1] == a + b[..|b| - 1];
      AssignmentsConcat(a, b[..|b| - 1]);
    }
  }

  lemma {:induction false} FilesConcat(a: seq<Option<string>>, b: seq<Option<string>>)
    ensures AllAssignments(a + b) == AllAssignments(a) + AllAssignments(b)
  {
    hide AssignmentsOf, SplitLines;
    if b == [] {
      assert a + b == a;
    } else {
      assert (a + b)[..|a + b| - 1] == a + b[..|b| - 1];
      FilesConcat(a, b[..|b| - 1]);
    }
  }

  /** The first file with an assignment decides, whatever the files behind it say, and files that
      cannot be read are passed over. */
  lemma FirstFileWins(before: seq<Option<string>>, text: string, after: seq<Option<string>>, key: string)
    requires Get(AllAssignments(before), key) == None && Get(AssignmentsOf(SplitLines(text)), key).Some?
    ensures Get(AllAssignments(before + [None] + [Some(text)] + after), key) == Get(AssignmentsOf(SplitLines(text)), key)
  {
    hide Get, AssignmentsOf, SplitLines;
    var seen := before + [None];
    assert seen[..|before|] == before;
    assert AllAssignments(seen) == AllAssignments(before) + [] == AllAssignments(before);
    assert (seen + [Some(text)])[..|seen|] == seen;
    FilesConcat(seen + [Some(text)], after);
    GetConcat(AllAssignments(before), AssignmentsOf(SplitLines(text)), key);
    GetConcat(AllAssignments(seen + [Some(text)]), AllAssignments(after), key);
  }

  // ---- the catalog ----

  datatype Entry = Entry(repo: string, template: string)

  predicate IsName(c: char) {
    'a' <= c <= 'z' || c == '_'
  }

  /** Length of the longest start of `s` made of name characters. */
  function NameRun(s: string): (n: nat)
    ensures n <= |s|
  {
    if s == "" || !IsName(s[0]) then 0 else 1 + NameRun(s[1..])
  }

  /** `_resolve_template`: placeholders `{name}` are replaced; `None` stands for the KeyError
      of an unknown name. */
  function Resolve(template: string, resolved: map<string, string>): Option<string>
    decreases |template|
  {
    if template == "" then Some("")
    else
      var n := if template[0] == '{' then NameRun(template[1..]) else 0;
      if n > 0 && n + 1 < |template| && template[n + 1] == '}' then
        var name := template[1..n + 1];
        var rest := Resolve(template[n + 2..], resolved);
        if name !in resolved || rest.None? then None else Some(resolved[name] + rest.value)
      else
        var rest := Resolve(template[1..], resolved);
        if rest.None? then None else Some([template[0]] + rest.value)
  }

  function Prepend(s: string, r: Option<string>): Option<string> {
    if r.None? then None else Some(s + r.value)
  }

  /** Text without braces is copied. */
  lemma {:induction false} ResolveCopies(text: string, rest: string, resolved: map<string, string>)
    requires '{' !in text
    ensures Resolve(text + rest, resolved) == Prepend(text, Resolve(rest, resolved))
    ensures Resolve(text, resolved) == Some(text)
  {
    if text == "" {
      assert text + rest == rest;
      assert Resolve(rest, resolved).Some? ==> "" + Resolve(rest, resolved).value == Resolve(rest, resolved).value;
    } else {
      var tail := Resolve(rest, resolved);
      assert (text + rest)[1..] == text[1..] + rest;
      ResolveCopies(text[1..], rest, resolved);
      assert [text[0]] + text[1..] == text;
      assert tail.Some? ==> [text[0]] + (text[1..] + tail.value) == text + tail.value;
    }
  }

  /** A placeholder is replaced by its value, and fails when there is none. */
  lemma ResolveReplaces(name: string, rest: string, resolved: map<string, string>)
    requires name != "" && forall c | c in name :: 'a' <= c <= 'z' || c == '_'
    ensures Resolve("{" + name + "}" + rest, resolved) ==
            if name in resolved then Prepend(resolved[name], Resolve(rest, resolved)) else None
  {
    var template := "{" + name + "}" + rest;
    assert template[1..] == name + ("}" + rest);
    NameRunOf(name, "}" + rest);
    assert template[1..|name| + 1] == name && template[|name| + 2..] == rest;
  }

  /** Letters from a to z and underscores up to a closing brace. */
  predicate EndsName(s: string, n: nat) {
    0 < n < |s| && s[n] == '}' && forall i | 0 <= i < n :: 'a' <= s[i] <= 'z' || s[i] == '_'
  }

  /** A brace that opens no placeholder is copied. */
  lemma BraceIsCopied(rest: string, resolved: map<string, string>)
    requires forall n: nat :: !EndsName(rest, n)
    ensures Resolve("{" + rest, resolved) == Prepend("{", Resolve(rest, resolved))
  {
    var template := "{" + rest;
    assert template[1..] == rest;
    NameRunIsName(rest);
    var n := NameRun(rest);
    assert !EndsName(rest, n);
    assert n + 1 < |template| ==> template[n + 1] == rest[n];
  }

  lemma {:induction false} NameRunIsName(s: string)
    ensures forall i | 0 <= i < NameRun(s) :: 'a' <= s[i] <= 'z' || s[i] == '_'
  {
    if s != "" {
      NameRunIsName(s[1..]);
    }
  }

  lemma {:induction false} NameRunOf(name: string, rest: string)
    requires (forall c | c in name :: IsName(c)) && (rest == "" || !IsName(rest[0]))
    ensures NameRun(name + rest) == |name|
  {
    if name == "" {
      assert name + rest == rest;
    } else {
      assert (name + rest)[1..] == name[1..] + rest;
      NameRunOf(name[1..], rest);
    }
  }

  /** `repo:tag` for every entry; `None` when a template cannot be resolved. */
  function References(entries: seq<Entry>, resolved: map<string, string>): Option<Dict> {
    if entries == [] then Some([])
    else
      var rest := References(entries[..|entries| - 1], resolved);
      var e := entries[|entries| - 1];
      var tag := Resolve(e.template, resolved);
      if rest.None? || tag.None? then None else Some(rest.value + [(e.repo, e.repo + ":" + tag.value)])
  }

  function Flatten(components: seq<seq<Entry>>): seq<Entry> {
    if components == [] then [] else Flatten(components[..|components| - 1]) + components[|components| - 1]
  }

  lemma {:induction false} ReferencesFail(a: seq<Entry>, b: seq<Entry>, resolved: map<string, string>)
    requires References(a, resolved).None?
    ensures References(a + b, resolved).None?
  {
    if b == [] {
      assert a + b == a;
    } else {
      assert (a + b)[..|a + b| - 1] == a + b[..|b| - 1];
      ReferencesFail(a, b[..|b| - 1], resolved);
    }
  }

  /** The entries come component by component, in the order of the catalog. */
  lemma {:induction false} FlattenInOrder(component: seq<Entry>, components: seq<seq<Entry>>)
    ensures Flatten([component] + components) == component + Flatten(components)
  {
    var all := [component] + components;
    if components == [] {
      assert all[..0] == [] && component + [] == component;
    } else {
      assert all[..|all| - 1] == [component] + components[..|components| - 1];
      FlattenInOrder(component, components[..|components| - 1]);
    }
  }

  lemma {:induction false} FlattenPrefix(components: seq<seq<Entry>>, i: nat)
    requires i <= |components|
    ensures Flatten(components[..i]) <= Flatten(components)
    decreases |components| - i
  {
    if i < |components| {
      FlattenPrefix(components, i + 1);
      assert components[..i + 1][..i] == components[..i];
    } else {
      assert components[..i] == components;
    }
  }

  /** `substitution_map`: for every repository of the catalog the reference of its first entry.
      A template that cannot be resolved fails the whole map, even where it would not be used. */
  method SubstitutionMap(components: seq<seq<Entry>>, resolved: map<string, string>) returns (r: Option<Dict>)
    ensures r.None? <==> References(Flatten(components), resolved).None?
    ensures r.Some? ==> DistinctKeys(r.value)
    ensures r.Some? ==>
              forall repo :: Get(r.value, repo) == Get(References(Flatten(components), resolved).value, repo)
  {
    hide Get, DistinctKeys, Resolve, SetDefault;
    var out: Dict := [];
    GetNothing();
    NoKeys();
    for i := 0 to |components|
      invariant DistinctKeys(out) && References(Flatten(components[..i]), resolved).Some?
      invariant forall k :: Get(out, k) == OrElse(None, Get(References(Flatten(components[..i]), resolved).value, k))
    {
      assert components[..i + 1][..i] == components[..i];
      ghost var before := Flatten(components[..i]);
      var entries := components[i];
      assert before + entries[..0] == before;
      for j := 0 to |entries|
        invariant DistinctKeys(out) && References(before + entries[..j], resolved).Some?
        invariant forall k :: Get(out, k) == OrElse(None, Get(References(before + entries[..j], resolved).value, k))
      {
        var e := entries[j];
        var tag := Resolve(e.template, resolved);
        ghost var now := before + entries[..j + 1];
        assert now[..|now| - 1] == before + entries[..j] && now[|now| - 1] == e;
        if tag.None? {
          FlattenPrefix(components, i + 1);
          ghost var all := Flatten(components);
          assert now <= before + entries;
          assert all == now + all[|now|..];
          ReferencesFail(now, all[|now|..], resolved);
          return None;
        }
        var ref := e.repo + ":" + tag.value;
        SetDefaultKeepsKeys(out, e.repo, ref);
        SetDefaultIsFirst([], out, References(before + entries[..j], resolved).value, e.repo, ref);
        out := SetDefault(out, e.repo, ref);
      }
      assert before + entries[..|entries|] == Flatten(components[..i + 1]);
    }
    assert components[..|components|] == components;
    return Some(out);
  }

  lemma NoKeys()
    ensures DistinctKeys([])
  {
  }

  // ---- longest name first ----

  function InsertByLength(pair: (string, string), d: Dict): Dict {
    if d == [] || |pair.0| >= |d[0].0| then [pair] + d else [d[0]] + InsertByLength(pair, d[1..])
  }

  /** `sorted(d.items(), key=lambda kv: -len(kv[0]))` */
  function LongestFirst(d: Dict): Dict {
    if d == [] then [] else InsertByLength(d[0], LongestFirst(d[1..]))
  }

  lemma {:induction false} GetInserted(pair: (string, string), d: Dict, key: string)
    requires Get(d, pair.0) == None
    ensures Get(InsertByLength(pair, d), key) == if key == pair.0 then Some(pair.1) else Get(d, key)
  {
    if d != [] && |pair.0| < |d[0].0| {
      GetInserted(pair, d[1..], key);
      assert InsertByLength(pair, d)[1..] == InsertByLength(pair, d[1..]);
    } else {
      assert ([pair] + d)[1..] == d;
    }
  }

  /** The order in which names are compared does not matter, for they are compared whole. */
  lemma {:induction false} OrderDoesNotMatter(d: Dict, key: string)
    requires DistinctKeys(d)
    ensures Get(LongestFirst(d), key) == Get(d, key)
  {
    if d != [] {
      OrderDoesNotMatter(d[1..], key);
      OrderDoesNotMatter(d[1..], d[0].0);
      GetInserted(d[0], LongestFirst(d[1..]), key);
    }
  }

  function OfLength(d: Dict, n: nat): Dict {
    if d == [] then [] else (if |d[0].0| == n then [d[0]] else []) + OfLength(d[1..], n)
  }

  predicate Descending(d: Dict) {
    forall i, j | 0 <= i < j < |d| :: |d[i].0| >= |d[j].0|
  }

  lemma {:induction false} InsertKeeps(pair: (string, string), d: Dict, n: nat)
    requires Descending(d)
    ensures var r := InsertByLength(pair, d);
            && |r| == |d| + 1 && Descending(r)
            && (forall i | 0 <= i < |r| :: |r[i].0| <= (if d == [] || |pair.0| >= |d[0].0| then |pair.0| else |d[0].0|))
            && OfLength(r, n) == (if |pair.0| == n then [pair] else []) + OfLength(d, n)
  {
    if d == [] || |pair.0| >= |d[0].0| {
      assert ([pair] + d)[1..] == d;
    } else {
      InsertKeeps(pair, d[1..], n);
      var r := InsertByLength(pair, d[1..]);
      assert ([d[0]] + r)[1..] == r;
      if |pair.0| == n {
        NoneLonger(d, n);
        NoneLonger(d[1..], n);
      }
    }
  }

  lemma {:induction false} NoneLonger(d: Dict, n: nat)
    requires Descending(d)
    ensures d == [] || |d[0].0| < n ==> OfLength(d, n) == []
  {
    if d != [] {
      NoneLonger(d[1..], n);
    }
  }

  /** The names come longest first, and names of one length in the order of the dictionary. */
  lemma {:induction false} LongestFirstIs(d: Dict, n: nat)
    ensures var r := LongestFirst(d);
            |r| == |d| && Descending(r) && OfLength(r, n) == OfLength(d, n)
  {
    if d != [] {
      LongestFirstIs(d[1..], n);
      InsertKeeps(d[0], LongestFirst(d[1..]), n);
    }
  }
}
