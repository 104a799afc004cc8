/** `_bmad/scripts/memlog.py`: the frontmatter-and-body text format and its
    append-only commands. The frontmatter dictionary is kept in source order, as
    a sequence of fields with distinct keys. */
module Memlog {
  import opened Text

  datatype Field = Field(key: string, value: string)
  type Meta = seq<Field>

  datatype Parsed = Document(meta: Meta, body: string) | NoFrontmatter | NotTerminated

  const FENCE := "---"

  // ---- the frontmatter as a dictionary in insertion order ----

  /** Index of the field called `key`, or `|meta|`. */
  function KeyIndex(meta: Meta, key: string): (n: nat)
    ensures n <= |meta| && forall i | 0 <= i < n :: meta[i].key != key
    ensures n < |meta| ==> meta[n].key == key
  {
    if meta == [] || meta[0].key == key then 0 else 1 + KeyIndex(meta[1..], key)
  }

  /** `meta[key] = value`: a known key keeps its place. */
  function Put(meta: Meta, key: string, value: string): Meta {
    var n := KeyIndex(meta, key);
    if n == |meta| then meta + [Field(key, value)] else meta[n := Field(key, value)]
  }

  /** `meta.pop(key, None)` */
  function Pop(meta: Meta, key: string): Meta {
    if meta == [] then []
    else if meta[0].key == key then meta[1..]
    else [meta[0]] + Pop(meta[1..], key)
  }

  /** `touch`: stamp `updated` and move it to the end. */
  function Touch(meta: Meta, now: string): Meta {
    Put(Pop(meta, "updated"), "updated", now)
  }

  predicate HasKey(meta: Meta, key: string) {
    exists i | 0 <= i < |meta| :: meta[i].key == key
  }

  predicate DistinctKeys(meta: Meta) {
    forall i, j | 0 <= i < j < |meta| :: meta[i].key != meta[j].key
  }

  lemma KeyIndexUnique(meta: Meta, key: string, n: nat)
    requires n <= |meta| && forall i | 0 <= i < n :: meta[i].key != key
    requires n < |meta| ==> meta[n].key == key
    ensures KeyIndex(meta, key) == n
  {
  }

  lemma PutKeepsDistinct(meta: Meta, key: string, value: string)
    requires DistinctKeys(meta)
    ensures DistinctKeys(Put(meta, key, value))
  {
  }

  lemma PutFresh(meta: Meta, key: string, value: string)
    requires !HasKey(meta, key)
    ensures Put(meta, key, value) == meta + [Field(key, value)]
  {
  }

  lemma {:induction false} PopIsSubset(meta: Meta, key: string)
    ensures forall f | f in Pop(meta, key) :: f in meta
  {
    if meta != [] {
      PopIsSubset(meta[1..], key);
    }
  }

  lemma {:induction false} PopGone(meta: Meta, key: string)
    requires DistinctKeys(meta)
    ensures DistinctKeys(Pop(meta, key)) && !HasKey(Pop(meta, key), key)
    ensures !HasKey(meta, key) ==> Pop(meta, key) == meta
  {
    if meta != [] {
      var rest := Pop(meta[1..], key);
      PopGone(meta[1..], key);
      PopIsSubset(meta[1..], key);
      assert forall i | 0 <= i < |meta[1..]| :: meta[1..][i] == meta[i + 1];
      assert forall i | 0 <= i < |rest| :: rest[i] in meta[1..];
    }
  }

  lemma {:induction false} PopLast(meta: Meta, f: Field)
    requires !HasKey(meta, f.key)
    ensures Pop(meta + [f], f.key) == meta
  {
    if meta == [] {
      assert (meta + [f])[1..] == [];
    } else {
      assert meta[0].key != f.key;
      assert forall i | 0 <= i < |meta[1..]| :: meta[1..][i] == meta[i + 1];
      assert (meta + [f])[1..] == meta[1..] + [f];
      PopLast(meta[1..], f);
    }
  }

  /** `updated` always comes last, exactly once, and nothing else moves. */
  lemma TouchPutsUpdatedLast(meta: Meta, now: string)
    requires DistinctKeys(meta)
    ensures Touch(meta, now) == Pop(meta, "updated") + [Field("updated", now)]
    ensures DistinctKeys(Touch(meta, now))
    ensures Pop(Touch(meta, now), "updated") == Pop(meta, "updated")
  {
    PopGone(meta, "updated");
    PutFresh(Pop(meta, "updated"), "updated", now);
    PopLast(Pop(meta, "updated"), Field("updated", now));
  }

  // ---- render ----

  /** `' '.join(str(v).splitlines())` */
  function Flat(value: string): (r: string)
    ensures SingleLine(r)
  {
    LinesAreSingle(value);
    JoinSingleLine(SplitLines(value));
    Join(" ", SplitLines(value))
  }

  function FieldText(f: Field): string {
    f.key + ": " + Flat(f.value)
  }

  function FieldTexts(meta: Meta): (texts: seq<string>)
    ensures |texts| == |meta|
    ensures forall i | 0 <= i < |meta| :: texts[i] == FieldText(meta[i])
  {
    seq(|meta|, i requires 0 <= i < |meta| => FieldText(meta[i]))
  }

  /** `s.rstrip("\n")` */
  function DropTrailing(s: string): (r: string)
    ensures r <= s && (r == "" || r[|r| - 1] != '\n')
    ensures forall i | |r| <= i < |s| :: s[i] == '\n'
  {
    if s != "" && s[|s| - 1] == '\n' then DropTrailing(s[..|s| - 1]) else s
  }

  /** `s.lstrip("\n")` */
  function DropLeading(s: string): (r: string)
    ensures r == "" || r[0] != '\n'
    ensures |r| <= |s|
    ensures forall i | 0 <= i < |s| - |r| :: s[i] == '\n'
  {
    if s != "" && s[0] == '\n' then DropLeading(s[1..]) else s
  }

  function Render(meta: Meta, body: string): string {
    FENCE + "\n" + Join("\n", FieldTexts(meta)) + "\n" + FENCE + "\n" + "\n" + DropTrailing(body) + "\n"
  }

  // ---- split ----

  /** One line of frontmatter: text without a colon is ignored. */
  function PutLine(meta: Meta, line: string): Meta {
    var n := IndexOf(line, ':');
    if n == |line| then meta else Put(meta, Strip(line[..n]), Strip(line[n + 1..]))
  }

  function ParseFields(lines: seq<string>): Meta {
    if lines == [] then [] else PutLine(ParseFields(lines[..|lines| - 1]), lines[|lines| - 1])
  }

  /** Index of the first line from `i` on that is exactly the fence, or `|lines|`. */
  function FindFence(lines: seq<string>, i: nat): (n: nat)
    requires i <= |lines|
    ensures i <= n <= |lines| && forall j | i <= j < n :: lines[j] != FENCE
    ensures n < |lines| ==> lines[n] == FENCE
    decreases |lines| - i
  {
    if i == |lines| || lines[i] == FENCE then i else FindFence(lines, i + 1)
  }

  function BodyOf(lines: seq<string>): string {
    DropLeading(Join("\n", lines))
  }

  function ParseLines(lines: seq<string>): Parsed {
    if lines == [] || lines[0] != FENCE then NoFrontmatter else
    var end := FindFence(lines, 1);
    if end == |lines| then NotTerminated
    else Document(ParseFields(lines[1..end]), BodyOf(lines[end + 1..]))
  }

  function Parse(text: string): Parsed {
    ParseLines(SplitLines(text))
  }

  /** `split`, with its search for the closing fence and its loop over the fields. */
  method Split(text: string) returns (r: Parsed)
    ensures r == Parse(text)
  {
    var lines := SplitLines(text);
    if |lines| == 0 || lines[0] != FENCE {
      return NoFrontmatter;
    }
    var end := ClosingFence(lines);
    if end == |lines| {
      return NotTerminated;
    }
    var meta := ReadFields(lines[1..end]);
    r := Document(meta, BodyOf(lines[end + 1..]));
  }

  method ClosingFence(lines: seq<string>) returns (end: nat)
    requires lines != []
    ensures end == FindFence(lines, 1)
  {
    end := 1;
    while end < |lines| && lines[end] != FENCE
      invariant 1 <= end <= |lines|
      invariant FindFence(lines, 1) == FindFence(lines, end)
    {
      end := end + 1;
    }
  }

  method ReadFields(lines: seq<string>) returns (meta: Meta)
    ensures meta == ParseFields(lines)
  {
    meta := [];
    for i := 0 to |lines|
      invariant meta == ParseFields(lines[..i])
    {
      assert lines[..i + 1][..i] == lines[..i];
      meta := PutLine(meta, lines[i]);
    }
    assert lines[..|lines|] == lines;
  }

  // ---- what a rendered document reads back as ----

  /** The lines the frontmatter of `meta` occupies once rendered. */
  function FieldLines(meta: Meta): seq<string> {
    SplitLines(Join("\n", FieldTexts(meta)) + "\n")
  }

  lemma LineThenRest(line: string, rest: string)
    requires SingleLine(line)
    ensures SplitLines(line + "\n" + rest) == [line] + SplitLines(rest)
  {
    SplitAtNewline(line, rest);
    SingleLineSplit(line);
  }

  lemma RenderedLines(meta: Meta, body: string)
    ensures SplitLines(Render(meta, body))
         == [FENCE] + (FieldLines(meta) + ([FENCE] + ([""] + SplitLines(DropTrailing(body) + "\n"))))
  {
    var fm, tail := Join("\n", FieldTexts(meta)), DropTrailing(body) + "\n";
    var inner := FENCE + "\n" + ("" + "\n" + tail);
    assert SplitLines(inner) == [FENCE] + ([""] + SplitLines(tail)) by {
      LineThenRest("", tail);
      LineThenRest(FENCE, "" + "\n" + tail);
    }
    assert Render(meta, body) == FENCE + "\n" + (fm + "\n" + inner);
    SplitAtNewline(fm, inner);
    LineThenRest(FENCE, fm + "\n" + inner);
  }

  /** No line of the rendered frontmatter can be taken for the closing fence. */
  predicate FenceFree(meta: Meta) {
    FENCE !in FieldLines(meta)
  }

  /** What is left of a body after one pass through `render` and `split`. */
  function ReadBody(body: string): string {
    DropLeading(Join("\n", SplitLines(DropTrailing(body) + "\n")))
  }

  lemma BodyLines(body: string)
    ensures BodyOf([""] + SplitLines(DropTrailing(body) + "\n")) == ReadBody(body)
  {
    var rest := SplitLines(DropTrailing(body) + "\n");
    JoinSplit("\n", [""], rest);
    assert Join("\n", [""] + rest) == "\n" + Join("\n", rest);
    assert ("\n" + Join("\n", rest))[1..] == Join("\n", rest);
  }

  lemma FindFenceUnique(lines: seq<string>, n: nat)
    requires 1 <= n < |lines| && lines[n] == FENCE && forall j | 1 <= j < n :: lines[j] != FENCE
    ensures FindFence(lines, 1) == n
  {
  }

  /** The first fence after the opening one closes the frontmatter. */
  lemma ParseAtFence(fields: seq<string>, rest: seq<string>)
    requires FENCE !in fields
    ensures ParseLines([FENCE] + (fields + ([FENCE] + rest))) == Document(ParseFields(fields), BodyOf(rest))
  {
    var lines := [FENCE] + (fields + ([FENCE] + rest));
    var n := |fields| + 1;
    assert forall j | 1 <= j < n :: lines[j] == fields[j - 1] && fields[j - 1] in fields;
    FindFenceUnique(lines, n);
    assert lines[1..n] == fields;
    assert lines[n + 1..] == rest;
  }

  /** What `split` makes of a rendered document whose frontmatter hides no fence. */
  lemma ReadsBack(meta: Meta, body: string)
    requires FenceFree(meta)
    ensures Parse(Render(meta, body)) == Document(ParseFields(FieldLines(meta)), ReadBody(body))
  {
    RenderedLines(meta, body);
    BodyLines(body);
    ParseAtFence(FieldLines(meta), [""] + SplitLines(DropTrailing(body) + "\n"));
  }

  /** A fence hidden in the frontmatter always leaks the frontmatter into the body. */
  lemma HiddenFenceLeaks(meta: Meta, body: string)
    requires !FenceFree(meta)
    ensures Parse(Render(meta, body)).Document? && |Parse(Render(meta, body)).body| > |ReadBody(body)|
  {
    hide ParseLines, SplitLines, FieldLines, Render, BodyOf, DropTrailing;
    RenderedLines(meta, body);
    var fields, rest := FieldLines(meta), SplitLines(DropTrailing(body) + "\n");
    var k := FindFence(fields, 0);
    var before, leaked := fields[..k], fields[k + 1..] + [FENCE];
    assert fields + ([FENCE] + ([""] + rest)) == before + ([FENCE] + (leaked + ([""] + rest)));
    ParseAtFence(before, leaked + ([""] + rest));
    LeakedBody(leaked, [""] + rest);
    JoinSplit("\n", [""], rest);
  }

  /** A body read from lines that still hold a fence is longer than what follows the fence. */
  lemma LeakedBody(before: seq<string>, after: seq<string>)
    requires before != [] && before[|before| - 1] == FENCE && after != []
    ensures |BodyOf(before + after)| > |Join("\n", after)|
  {
    var start := Join("\n", before);
    EndsWithFence(before);
    JoinSplit("\n", before, after);
    assert Join("\n", before + after)[|start| - 3] == '-';
  }

  lemma {:induction false} EndsWithFence(parts: seq<string>)
    requires parts != [] && parts[|parts| - 1] == FENCE
    ensures |Join("\n", parts)| >= 3 && Join("\n", parts)[|Join("\n", parts)| - 3] == '-'
  {
    if |parts| > 1 {
      EndsWithFence(parts[1..]);
    }
  }

  /** The body survives exactly when no field hides a fence line. */
  lemma BodySurvivesIffFenceFree(meta: Meta, body: string)
    ensures FenceFree(meta)
       <==> Parse(Render(meta, body)).Document? && Parse(Render(meta, body)).body == ReadBody(body)
  {
    if FenceFree(meta) {
      ReadsBack(meta, body);
    } else {
      HiddenFenceLeaks(meta, body);
    }
  }

  // ---- the file, character by character ----

  /** Leading newlines are dropped and nothing else. */
  lemma {:induction false} DropsNewlines(newlines: string, s: string)
    requires (forall i | 0 <= i < |newlines| :: newlines[i] == '\n') && (s != "" ==> s[0] != '\n')
    ensures DropLeading(newlines + s) == s
  {
    if newlines == "" {
      assert newlines + s == s;
    } else {
      assert (newlines + s)[1..] == newlines[1..] + s;
      DropsNewlines(newlines[1..], s);
    }
  }

  /** A value is written on one line, its lines joined by blanks. */
  lemma FlatJoins(lines: seq<string>)
    requires lines != [] && forall l | l in lines :: SingleLine(l)
    ensures Flat(Join("\n", lines) + "\n") == Join(" ", lines)
    ensures lines[|lines| - 1] != "" ==> Flat(Join("\n", lines)) == Join(" ", lines)
  {
    SplitJoin(lines);
    if lines[|lines| - 1] != "" {
      LastLineEnds(lines);
      assert SingleLine(lines[|lines| - 1]);
      hide IsLineBreak, Join, SplitLines;
      SplitUnterminated(Join("\n", lines));
    }
  }

  lemma {:induction false} LastLineEnds(lines: seq<string>)
    requires lines != [] && lines[|lines| - 1] != ""
    ensures var s, l := Join("\n", lines), lines[|lines| - 1]; s != "" && s[|s| - 1] == l[|l| - 1]
  {
    if |lines| > 1 {
      LastLineEnds(lines[1..]);
    }
  }

  function FieldBlock(meta: Meta): string {
    if meta == [] then "" else meta[0].key + ": " + meta[0].value + "\n" + FieldBlock(meta[1..])
  }

  /** A file between two fences, then an empty line, then the body. */
  function FileText(meta: Meta, body: string): string {
    "---\n" + FieldBlock(meta) + "---\n\n" + body + "\n"
  }

  lemma {:induction false} BlockOfTexts(meta: Meta)
    requires meta != [] && forall i | 0 <= i < |meta| :: SingleLine(meta[i].value)
    ensures Join("\n", FieldTexts(meta)) + "\n" == FieldBlock(meta)
  {
    FlatOfSingleLine(meta[0].value);
    if |meta| > 1 {
      BlockOfTexts(meta[1..]);
      assert FieldTexts(meta)[1..] == FieldTexts(meta[1..]);
    } else {
      assert FieldBlock(meta[1..]) == "";
    }
  }

  /** What is written, when the values are on one line and the body ends with no newline. */
  lemma FileIsText(meta: Meta, body: string)
    requires meta != [] && forall i | 0 <= i < |meta| :: SingleLine(meta[i].value)
    requires body != "" ==> body[|body| - 1] != '\n'
    ensures Render(meta, body) == FileText(meta, body)
  {
    BlockOfTexts(meta);
    assert DropTrailing(body) == body;
    assert Render(meta, body) == "---\n" + (Join("\n", FieldTexts(meta)) + "\n") + "---\n\n" + body + "\n";
  }

  /** A text without "---" as its first line has no frontmatter; without a second such line it
      is not terminated; any other text is read. */
  lemma ParseAnswers(text: string)
    ensures var lines := SplitLines(text);
            if lines == [] || lines[0] != "---" then Parse(text) == NoFrontmatter
            else if "---" !in lines[1..] then Parse(text) == NotTerminated
            else Parse(text).Document?
  {
    var lines := SplitLines(text);
    if lines != [] {
      var n := FindFence(lines, 1);
      assert forall i | 1 <= i < |lines| :: lines[i] == lines[1..][i - 1];
      assert n < |lines| ==> lines[1..][n - 1] == FENCE;
    }
  }

  // ---- exact round trip ----

  predicate CleanKey(key: string) {
    Stripped(key) && SingleLine(key) && ':' !in key
  }

  predicate CleanKeys(meta: Meta) {
    DistinctKeys(meta) && forall i | 0 <= i < |meta| :: CleanKey(meta[i].key)
  }

  predicate CleanMeta(meta: Meta) {
    CleanKeys(meta) && forall i | 0 <= i < |meta| :: Stripped(meta[i].value) && SingleLine(meta[i].value)
  }

  predicate CleanBody(body: string) {
    NewlinesOnly(body) && (body != "" ==> body[0] != '\n' && body[|body| - 1] != '\n')
  }

  lemma PutKeepsClean(meta: Meta, key: string, value: string)
    requires CleanMeta(meta) && CleanKey(key) && Stripped(value) && SingleLine(value)
    ensures CleanMeta(Put(meta, key, value))
  {
  }

  lemma PutLineKeepsClean(meta: Meta, line: string)
    requires CleanMeta(meta) && SingleLine(line)
    ensures CleanMeta(PutLine(meta, line))
  {
    var n := IndexOf(line, ':');
    if n < |line| {
      assert SingleLine(line[..n]) && SingleLine(line[n + 1..]);
      assert ':' !in line[..n];
      StripStrips(line[..n]);
      StripStrips(line[n + 1..]);
      PutKeepsClean(meta, Strip(line[..n]), Strip(line[n + 1..]));
    }
  }

  /** Whatever the frontmatter lines are, what is read from them is clean. */
  lemma {:induction false} ParsedIsClean(lines: seq<string>)
    requires forall i | 0 <= i < |lines| :: SingleLine(lines[i])
    ensures CleanMeta(ParseFields(lines))
  {
    if lines != [] {
      ParsedIsClean(lines[..|lines| - 1]);
      PutLineKeepsClean(ParseFields(lines[..|lines| - 1]), lines[|lines| - 1]);
    }
  }

  lemma {:induction false} DropLeadingNewlinesOnly(s: string)
    requires NewlinesOnly(s)
    ensures NewlinesOnly(DropLeading(s))
  {
    if s != "" { DropLeadingNewlinesOnly(s[1..]); }
  }

  /** Whatever the text, what `split` returns has a clean dictionary and a body of plain
      newlines that does not start with one. */
  lemma ParseIsClean(text: string)
    requires Parse(text).Document?
    ensures CleanMeta(Parse(text).meta)
    ensures NewlinesOnly(Parse(text).body)
    ensures Parse(text).body != "" ==> Parse(text).body[0] != '\n'
  {
    var lines := SplitLines(text);
    LinesAreSingle(text);
    var end := FindFence(lines, 1);
    ParsedIsClean(lines[1..end]);
    JoinNewlinesOnly(lines[end + 1..]);
    DropLeadingNewlinesOnly(Join("\n", lines[end + 1..]));
  }

  /** A key that `render` writes and `split` reads as one `key: value` line. */
  predicate PlainKey(key: string) {
    SingleLine(key) && ':' !in key
  }

  predicate PlainKeys(meta: Meta) {
    forall i | 0 <= i < |meta| :: PlainKey(meta[i].key)
  }

  /** The dictionary `split` builds from the fields of `meta`. */
  function Normal(meta: Meta): Meta {
    if meta == [] then []
    else
      var f := meta[|meta| - 1];
      Put(Normal(meta[..|meta| - 1]), Strip(f.key), Strip(Flat(f.value)))
  }

  lemma PlainFieldReads(meta: Meta, f: Field)
    requires PlainKey(f.key)
    ensures SingleLine(FieldText(f)) && FieldText(f) != FENCE
    ensures PutLine(meta, FieldText(f)) == Put(meta, Strip(f.key), Strip(Flat(f.value)))
  {
    var line := FieldText(f);
    assert line[|f.key|] == ':';
    IndexOfUnique(line, ':', |f.key|);
    assert line[..|f.key|] == f.key;
    assert line[|f.key| + 1..] == " " + Flat(f.value);
    assert (" " + Flat(f.value))[1..] == Flat(f.value);
  }

  lemma {:induction false} PlainTextsRead(meta: Meta)
    requires PlainKeys(meta)
    ensures ParseFields(FieldTexts(meta)) == Normal(meta)
  {
    if meta != [] {
      var init, f := meta[..|meta| - 1], meta[|meta| - 1];
      PlainTextsRead(init);
      PlainFieldReads(Normal(init), f);
      assert FieldTexts(meta)[..|meta| - 1] == FieldTexts(init);
    }
  }

  /** Fields with plain keys take one line each and read back normalised. */
  lemma PlainFieldsRead(meta: Meta)
    requires PlainKeys(meta)
    ensures FenceFree(meta)
    ensures ParseFields(FieldLines(meta)) == Normal(meta)
  {
    if meta == [] {
      SingleLineSplit("");
      assert FieldLines(meta) == [""];
      assert ParseFields([""][..0]) == [];
    } else {
      forall i | 0 <= i < |meta| ensures SingleLine(FieldTexts(meta)[i]) && FieldTexts(meta)[i] != FENCE {
        PlainFieldReads([], meta[i]);
      }
      SplitJoin(FieldTexts(meta));
      PlainTextsRead(meta);
    }
  }

  /** `meta` with every value on one line and stripped. */
  function Flattened(meta: Meta): (r: Meta)
    ensures |r| == |meta|
  {
    seq(|meta|, i requires 0 <= i < |meta| => Field(meta[i].key, Strip(Flat(meta[i].value))))
  }

  lemma FlattenedGrows(meta: Meta, f: Field)
    requires CleanKeys(meta + [f])
    ensures Put(Flattened(meta), f.key, Strip(Flat(f.value))) == Flattened(meta + [f])
  {
    forall i | 0 <= i < |meta| ensures meta[i].key != f.key {
      assert (meta + [f])[i] == meta[i] && (meta + [f])[|meta|] == f;
    }
    PutFresh(Flattened(meta), f.key, Strip(Flat(f.value)));
  }

  lemma {:induction false} NormalOfCleanKeys(meta: Meta)
    requires CleanKeys(meta)
    ensures Normal(meta) == Flattened(meta)
  {
    if meta != [] {
      var init, f := meta[..|meta| - 1], meta[|meta| - 1];
      assert init + [f] == meta;
      NormalOfCleanKeys(init);
      StripOfStripped(f.key);
      FlattenedGrows(init, f);
    }
  }

  lemma FlatOfSingleLine(v: string)
    requires SingleLine(v)
    ensures Flat(v) == v
  {
    SingleLineSplit(v);
  }

  lemma FlattenedIsClean(meta: Meta)
    requires CleanKeys(meta)
    ensures CleanMeta(Flattened(meta))
    ensures CleanMeta(meta) ==> Flattened(meta) == meta
  {
    forall i | 0 <= i < |meta|
      ensures Stripped(Flattened(meta)[i].value) && SingleLine(Flattened(meta)[i].value)
      ensures Stripped(meta[i].value) && SingleLine(meta[i].value) ==> Flattened(meta)[i] == meta[i]
    {
      StripStrips(Flat(meta[i].value));
      if Stripped(meta[i].value) && SingleLine(meta[i].value) {
        FlatOfSingleLine(meta[i].value);
        StripOfStripped(meta[i].value);
      }
    }
  }

  lemma ReadBodyOfPlain(body: string)
    requires NewlinesOnly(body) && (body != "" ==> body[0] != '\n')
    ensures ReadBody(body) == DropTrailing(body)
  {
    JoinSplitLines(DropTrailing(body));
  }

  /** Rendering and splitting give a document back exactly when it is clean. */
  lemma RoundTripIffClean(meta: Meta, body: string)
    ensures Parse(Render(meta, body)) == Document(meta, body) <==> CleanMeta(meta) && CleanBody(body)
  {
    if Parse(Render(meta, body)) == Document(meta, body) {
      ParseIsClean(Render(meta, body));
      PlainFieldsRead(meta);
      ReadsBack(meta, body);
      ReadBodyOfPlain(body);
    }
    if CleanMeta(meta) && CleanBody(body) {
      StableAfterOnePass(meta, body);
      FlattenedIsClean(meta);
    }
  }

  /** Values may be anything at all: one pass normalises them, and the document then
      reads back unchanged for ever. */
  lemma StableAfterOnePass(meta: Meta, body: string)
    requires CleanKeys(meta) && CleanBody(body)
    ensures Parse(Render(meta, body)) == Document(Flattened(meta), body)
    ensures Parse(Render(Flattened(meta), body)) == Document(Flattened(meta), body)
  {
    ReadBodyOfPlain(body);
    PlainFieldsRead(meta);
    ReadsBack(meta, body);
    NormalOfCleanKeys(meta);
    FlattenedIsClean(meta);
    var again := Flattened(meta);
    PlainFieldsRead(again);
    ReadsBack(again, body);
    NormalOfCleanKeys(again);
    FlattenedIsClean(again);
  }

  /** Whatever text was read, writing it back and reading again changes nothing but
      trailing newlines. */
  lemma Reopens(text: string)
    requires Parse(text).Document?
    ensures Parse(Render(Parse(text).meta, Parse(text).body))
         == Document(Parse(text).meta, DropTrailing(Parse(text).body))
  {
    var meta, body := Parse(text).meta, Parse(text).body;
    ParseIsClean(text);
    ReadBodyOfPlain(body);
    PlainFieldsRead(meta);
    ReadsBack(meta, body);
    NormalOfCleanKeys(meta);
    FlattenedIsClean(meta);
  }

  // ---- the commands ----

  datatype Command =
    | Append(text: string, kind: Option<string>, author: Option<string>)
    | Set(key: string, value: string)

  /** A command and what the clock says when it runs. */
  datatype Stamped = Stamped(command: Command, now: string)

  function OrEmpty(s: Option<string>): string {
    if s.Some? then s.value else ""
  }

  /** The inline tag: kind, author, both or neither. */
  function Label(kind: Option<string>, author: Option<string>): string {
    if OrEmpty(author) != "" then Strip(OrEmpty(kind) + " by " + OrEmpty(author)) else OrEmpty(kind)
  }

  function Entry(text: string, kind: Option<string>, author: Option<string>): string {
    var tag := Label(kind, author);
    var prefix := if tag != "" then "(" + tag + ") " else "";
    "- " + prefix + Join(" ", Words(text))
  }

  function WithEntry(body: string, entry: string): string {
    if Strip(body) != "" then DropTrailing(body) + "\n" + entry else entry
  }

  /** `entry_count`: the lines that start with "- ". */
  function CountEntries(lines: seq<string>): nat {
    if lines == [] then 0
    else CountEntries(lines[..|lines| - 1]) + (if "- " <= lines[|lines| - 1] then 1 else 0)
  }

  function EntryCount(body: string): nat {
    CountEntries(SplitLines(body))
  }

  /** What `append` and `set` write: the new frontmatter and body, if the file can be read. */
  function Edited(file: string, step: Stamped): Option<(Meta, string)> {
    match Parse(file)
    case Document(meta, body) =>
      Some(match step.command
           case Append(text, kind, author) =>
             (Touch(meta, step.now), WithEntry(body, Entry(text, kind, author)))
           case Set(key, value) =>
             (Touch(Put(meta, key, value), step.now), body))
    case _ => None
  }

  /** The file after one command; `None` when `split` raises. */
  function Execute(file: string, step: Stamped): Option<string> {
    var edit := Edited(file, step);
    if edit.None? then None else Some(Render(edit.value.0, edit.value.1))
  }

  /** The file after a run of commands. */
  function Run(file: string, steps: seq<Stamped>): Option<string>
    decreases |steps|
  {
    if steps == [] then Some(file)
    else
      var next := Execute(file, steps[0]);
      if next.None? then None else Run(next.value, steps[1..])
  }

  /** The frontmatter `init` collects from its `key=value` arguments, if all have a "=". */
  function InitMeta(fields: seq<string>): Option<Meta> {
    if fields == [] then Some([])
    else
      var before, pair := InitMeta(fields[..|fields| - 1]), fields[|fields| - 1];
      var n := IndexOf(pair, '=');
      if before.None? || n == |pair| then None
      else Some(Put(before.value, Strip(pair[..n]), Strip(pair[n + 1..])))
  }

  datatype Ack = Done(entries: nat) | AlreadyExists | BadField | Unreadable

  /** The memlog file; `None` while it does not exist. */
  class MemlogFile {
    var text: Option<string>

    constructor ()
      ensures text == None
    {
      text := None;
    }

    /** `cmd_init` */
    method Init(fields: seq<string>, now: string) returns (r: Ack)
      modifies this
      ensures old(text).Some? ==> r == AlreadyExists && text == old(text)
      ensures old(text).None? && InitMeta(fields).None? ==> r == BadField && text == None
      ensures old(text).None? && InitMeta(fields).Some? ==>
                r == Done(0) && text == Some(Render(Touch(InitMeta(fields).value, now), ""))
    {
      if text.Some? {
        return AlreadyExists;
      }
      var meta := [];
      for i := 0 to |fields|
        invariant InitMeta(fields[..i]) == Some(meta)
        invariant text == old(text)
      {
        assert fields[..i + 1][..i] == fields[..i];
        var n := IndexOf(fields[i], '=');
        if n == |fields[i]| {
          BadFieldStays(fields, i + 1);
          return BadField;
        }
        meta := Put(meta, Strip(fields[i][..n]), Strip(fields[i][n + 1..]));
      }
      assert fields[..|fields|] == fields;
      text := Some(Render(Touch(meta, now), ""));
      r := Done(EntryCount(""));
    }

    /** `cmd_append` */
    method Append(entryText: string, kind: Option<string>, author: Option<string>, now: string) returns (r: Ack)
      modifies this
      ensures Edits(old(text), Stamped(Command.Append(entryText, kind, author), now), text, r)
    {
      r := Apply(Stamped(Command.Append(entryText, kind, author), now));
    }

    /** `cmd_set` */
    method Set(key: string, value: string, now: string) returns (r: Ack)
      modifies this
      ensures Edits(old(text), Stamped(Command.Set(key, value), now), text, r)
    {
      r := Apply(Stamped(Command.Set(key, value), now));
    }

    method Apply(step: Stamped) returns (r: Ack)
      modifies this
      ensures Edits(old(text), step, text, r)
    {
      if text.None? {
        return Unreadable;
      }
      var document := Split(text.value);
      if !document.Document? {
        return Unreadable;
      }
      var meta, body := document.meta, document.body;
      match step.command {
        case Append(entryText, kind, author) =>
          body := WithEntry(body, Entry(entryText, kind, author));
        case Set(key, value) =>
          meta := Put(meta, key, value);
      }
      meta := Touch(meta, step.now);
      text := Some(Render(meta, body));
      r := Done(EntryCount(body));
    }
  }

  /** A command leaves an unreadable file alone, and otherwise writes the edited document and
      acknowledges the entries of its body. */
  ghost predicate Edits(before: Option<string>, step: Stamped, after: Option<string>, r: Ack) {
    if before.None? || Edited(before.value, step).None? then after == before && r == Unreadable
    else
      var edit := Edited(before.value, step).value;
      after == Some(Render(edit.0, edit.1)) && r == Done(EntryCount(edit.1))
  }

  lemma {:induction false} BadFieldStays(fields: seq<string>, n: nat)
    requires n <= |fields| && InitMeta(fields[..n]).None?
    ensures InitMeta(fields).None?
    decreases |fields| - n
  {
    if n == |fields| {
      assert fields[..n] == fields;
    } else {
      assert fields[..n + 1][..n] == fields[..n];
      BadFieldStays(fields, n + 1);
    }
  }

  // ---- runs ----

  predicate IsEntry(line: string) {
    SingleLine(line) && "- " <= line
  }

  predicate AllEntries(lines: seq<string>) {
    forall i | 0 <= i < |lines| :: IsEntry(lines[i])
  }

  /** Labels and keys that stay on their own line. */
  predicate Plain(command: Command) {
    match command
    case Append(_, kind, author) => SingleLine(Label(kind, author))
    case Set(key, _) => PlainKey(key)
  }

  function NewEntries(command: Command): seq<string> {
    match command
    case Append(text, kind, author) => [Entry(text, kind, author)]
    case Set(_, _) => []
  }

  function Entries(steps: seq<Stamped>): seq<string> {
    if steps == [] then [] else NewEntries(steps[0].command) + Entries(steps[1..])
  }

  /** The dictionary after a command, as a dictionary update on normalised strings. */
  function MetaStep(meta: Meta, step: Stamped): Meta {
    var now := Strip(Flat(step.now));
    match step.command
    case Append(_, _, _) => Touch(meta, now)
    case Set(key, value) => Touch(Put(meta, Strip(key), Strip(Flat(value))), now)
  }

  function MetaAfter(meta: Meta, steps: seq<Stamped>): Meta
    decreases |steps|
  {
    if steps == [] then meta else MetaAfter(MetaStep(meta, steps[0]), steps[1..])
  }

  lemma EntryIsEntry(text: string, kind: Option<string>, author: Option<string>)
    requires SingleLine(Label(kind, author))
    ensures IsEntry(Entry(text, kind, author))
  {
    hide Label;
    JoinSingleLine(Words(text));
    var tag, words := Label(kind, author), Join(" ", Words(text));
    assert SingleLine("- " + words);
    assert SingleLine("(" + tag + ") ");
    assert SingleLine("- " + ("(" + tag + ") ") + words);
    assert "- " + "" + words == "- " + words;
  }

  /** The body made of entries is clean, and not blank unless there are none. */
  lemma {:induction false} EntriesAreClean(entries: seq<string>)
    requires AllEntries(entries) && entries != []
    ensures Join("\n", entries) != "" && Join("\n", entries)[0] == '-'
    ensures !IsLineBreak(Join("\n", entries)[|Join("\n", entries)| - 1])
    ensures CleanBody(Join("\n", entries))
  {
    var body := Join("\n", entries);
    assert entries[0][0] == '-';
    assert SingleLine(entries[0]);
    if |entries| > 1 {
      EntriesAreClean(entries[1..]);
    }
    JoinNewlinesOnly(entries);
  }

  lemma AppendedBody(entries: seq<string>, entry: string)
    requires AllEntries(entries)
    ensures WithEntry(Join("\n", entries), entry) == Join("\n", entries + [entry])
  {
    if entries == [] {
      assert entries + [entry] == [entry];
    } else {
      EntriesAreClean(entries);
      StripOfInk(Join("\n", entries));
      JoinSplit("\n", entries, [entry]);
    }
  }

  lemma AppendedText(entries: seq<string>, entry: string)
    requires AllEntries(entries)
    ensures WithEntry(Join("\n", entries), entry) ==
            if entries == [] then entry else Join("\n", entries) + "\n" + entry
  {
    if entries != [] {
      EntriesAreClean(entries);
      StripOfInk(Join("\n", entries));
    }
  }

  /** A line break with something other than a line break behind it makes two lines. */
  lemma {:induction false} TwoLines(s: string, i: nat, j: nat)
    requires i < j < |s| && IsLineBreak(s[i]) && !IsLineBreak(s[j])
    ensures |SplitLines(s)| >= 2
    decreases i
  {
    hide IsLineBreak;
    if IsLineBreak(s[0]) {
      NewlineBreaks();
      assert SplitLines(s[BreakLength(s)..]) != [];
    } else {
      TwoLines(s[1..], i - 1, j - 1);
    }
  }

  lemma NewlineBreaks()
    ensures IsLineBreak('\n') && !IsLineBreak(')')
  {
  }

  lemma BrokenLabelBreaksEntry(text: string, kind: Option<string>, author: Option<string>)
    requires !SingleLine(Label(kind, author))
    ensures |SplitLines(Entry(text, kind, author))| >= 2
  {
    hide IsLineBreak, Label, SplitLines;
    var tag, words := Label(kind, author), Join(" ", Words(text));
    var i :| 0 <= i < |tag| && IsLineBreak(tag[i]);
    var entry := Entry(text, kind, author);
    assert entry == "- " + ("(" + tag + ") ") + words;
    assert entry[3 + i] == tag[i] && entry[3 + |tag|] == ')';
    NewlineBreaks();
    TwoLines(entry, 3 + i, 3 + |tag|);
  }

  /** An append adds one line to a body of entries if and only if its label is on one line. */
  lemma AppendAddsOneLineIff(entries: seq<string>, text: string, kind: Option<string>, author: Option<string>)
    requires AllEntries(entries)
    ensures |SplitLines(WithEntry(Join("\n", entries), Entry(text, kind, author)))| == |entries| + 1
       <==> SingleLine(Label(kind, author))
  {
    hide IsLineBreak, Label, SplitLines, Entry, WithEntry, Join;
    var entry := Entry(text, kind, author);
    AppendedText(entries, entry);
    if entries != [] {
      EntriesSplit(entries);
      SplitAtNewline(Join("\n", entries), entry);
    }
    if SingleLine(Label(kind, author)) {
      EntryIsEntry(text, kind, author);
      SingleLineSplit(entry);
    } else {
      BrokenLabelBreaksEntry(text, kind, author);
    }
  }

  lemma EntriesSplit(entries: seq<string>)
    requires AllEntries(entries) && entries != []
    ensures SplitLines(Join("\n", entries) + "\n") == entries
  {
    SplitJoin(entries);
  }

  lemma {:induction false} CountOfEntries(entries: seq<string>)
    requires AllEntries(entries)
    ensures CountEntries(entries) == |entries|
  {
    if entries != [] {
      CountOfEntries(entries[..|entries| - 1]);
    }
  }

  function EntryLines(lines: seq<string>): set<nat> {
    set i: nat | i < |lines| && |lines[i]| >= 2 && lines[i][0] == '-' && lines[i][1] == ' '
  }

  /** Whatever the body, its entries are its lines that start with a dash and a blank. */
  lemma {:induction false} CountsEntryLines(lines: seq<string>)
    ensures CountEntries(lines) == |EntryLines(lines)|
  {
    if lines == [] {
      assert EntryLines(lines) == {};
    } else {
      var last := |lines| - 1;
      CountsEntryLines(lines[..last]);
      assert "- " <= lines[last] <==> |lines[last]| >= 2 && lines[last][0] == '-' && lines[last][1] == ' ';
      assert EntryLines(lines) == EntryLines(lines[..last]) + (if last in EntryLines(lines) then {last} else {});
    }
  }

  lemma EntryCountOf(entries: seq<string>)
    requires AllEntries(entries)
    ensures EntryCount(Join("\n", entries)) == |entries|
  {
    if entries != [] {
      EntriesAreClean(entries);
      SplitUnterminated(Join("\n", entries));
      SplitJoin(entries);
      CountOfEntries(entries);
    }
  }

  lemma PutCons(h: Field, t: Meta, key: string, value: string)
    ensures Put([h] + t, key, value) == if h.key == key then [Field(key, value)] + t else [h] + Put(t, key, value)
  {
    assert ([h] + t)[1..] == t;
  }

  lemma PopCons(h: Field, t: Meta, key: string)
    ensures Pop([h] + t, key) == if h.key == key then t else [h] + Pop(t, key)
  {
    assert ([h] + t)[1..] == t;
  }

  /** Popping one field and setting another are independent of each other. */
  lemma {:induction false} PopPutOther(meta: Meta, popped: string, key: string, value: string)
    requires key != popped
    ensures Pop(Put(meta, key, value), popped) == Put(Pop(meta, popped), key, value)
  {
    if meta == [] {
      assert Put([], key, value) == [Field(key, value)] + [];
      PopCons(Field(key, value), [], popped);
    } else {
      var h, t, f := meta[0], meta[1..], Field(key, value);
      assert meta == [h] + t;
      PutCons(h, t, key, value);
      PopCons(h, t, popped);
      PopCons(f, t, popped);
      PopCons(h, Put(t, key, value), popped);
      PutCons(h, Pop(t, popped), key, value);
      PopPutOther(t, popped, key, value);
    }
  }

  lemma {:induction false} PopPutSame(meta: Meta, key: string, value: string)
    ensures Pop(Put(meta, key, value), key) == Pop(meta, key)
  {
    if meta == [] {
      assert Put([], key, value) == [Field(key, value)] + [];
      PopCons(Field(key, value), [], key);
    } else {
      var h, t := meta[0], meta[1..];
      assert meta == [h] + t;
      PutCons(h, t, key, value);
      PopCons(Field(key, value), t, key);
      PopCons(h, Put(t, key, value), key);
      PopPutSame(t, key, value);
    }
  }

  lemma UpdatedIsClean()
    ensures CleanKey("updated") && Strip("updated") == "updated"
  {
    StripOfStripped("updated");
  }

  lemma TouchKeepsPlain(meta: Meta, now: string)
    requires DistinctKeys(meta)
    ensures PlainKeys(meta) ==> PlainKeys(Touch(meta, now))
    ensures CleanMeta(meta) ==> CleanMeta(Pop(meta, "updated"))
  {
    hide IsSpace, IsLineBreak, Pop, Touch, Strip;
    TouchPutsUpdatedLast(meta, now);
    PopGone(meta, "updated");
    PopIsSubset(meta, "updated");
    UpdatedIsClean();
    var rest := Pop(meta, "updated");
    assert forall i | 0 <= i < |rest| :: rest[i] in meta;
  }

  lemma NormalSnoc(meta: Meta, f: Field)
    ensures Normal(meta + [f]) == Put(Normal(meta), Strip(f.key), Strip(Flat(f.value)))
  {
    assert (meta + [f])[..|meta|] == meta;
  }

  /** A touched dictionary, seen through one pass. */
  lemma NormalOfTouch(meta: Meta, now: string)
    requires DistinctKeys(meta)
    ensures Normal(Touch(meta, now)) == Put(Normal(Pop(meta, "updated")), "updated", Strip(Flat(now)))
  {
    TouchPutsUpdatedLast(meta, now);
    NormalSnoc(Pop(meta, "updated"), Field("updated", now));
    UpdatedIsClean();
  }

  /** A field replaced or added before the stamp, seen through one pass. */
  lemma NormalOfEdit(meta: Meta, key: string, value: string, now: string)
    requires CleanMeta(meta) && PlainKey(key)
    ensures Normal(Touch(Put(meta, key, value), now))
         == Touch(Put(meta, Strip(key), Strip(Flat(value))), Strip(Flat(now)))
  {
    NormalOfTouch(Put(meta, key, value), now);
    hide IsSpace, IsLineBreak;
    NormalOfPoppedEdit(meta, key, value);
    StampedEdit(meta, Strip(key), Strip(Flat(value)), Strip(Flat(now)));
  }

  lemma NormalOfPoppedEdit(meta: Meta, key: string, value: string)
    requires CleanMeta(meta) && PlainKey(key)
    ensures DistinctKeys(Put(meta, key, value))
    ensures Normal(Pop(Put(meta, key, value), "updated"))
         == if key == "updated" then Pop(meta, "updated") else Put(Pop(meta, "updated"), Strip(key), Strip(Flat(value)))
    ensures key == "updated" ==> Strip(key) == "updated"
  {
    hide IsSpace, IsLineBreak, Put, Pop, Normal, Strip, Flat;
    PutKeepsDistinct(meta, key, value);
    TouchKeepsPlain(meta, "");
    NormalOfEditedRest(Pop(meta, "updated"), key, value);
    if key == "updated" {
      PopPutSame(meta, key, value);
      UpdatedIsClean();
    } else {
      PopPutOther(meta, "updated", key, value);
    }
  }

  lemma NormalOfEditedRest(rest: Meta, key: string, value: string)
    requires CleanMeta(rest) && PlainKey(key)
    ensures Normal(Put(rest, key, value)) == Put(rest, Strip(key), Strip(Flat(value)))
    ensures Normal(rest) == rest
  {
    NormalOfCleanKeys(rest);
    FlattenedIsClean(rest);
    var n := KeyIndex(rest, key);
    if n == |rest| {
      NormalSnoc(rest, Field(key, value));
    } else {
      NormalOfReplaced(rest, n, value);
    }
  }

  lemma NormalOfReplaced(rest: Meta, n: nat, value: string)
    requires CleanMeta(rest) && n < |rest|
    ensures Normal(rest[n := Field(rest[n].key, value)]) == Put(rest, Strip(rest[n].key), Strip(Flat(value)))
  {
    var replaced := rest[n := Field(rest[n].key, value)];
    StripOfStripped(rest[n].key);
    KeyIndexUnique(rest, rest[n].key, n);
    NormalOfCleanKeys(replaced);
    FlattenedIsClean(rest);
    forall i | 0 <= i < |rest| ensures Flattened(replaced)[i] == rest[n := Field(rest[n].key, Strip(Flat(value)))][i] {
      assert i != n ==> Flattened(rest)[i] == rest[i];
    }
  }

  /** Stamping after an edit is the same whether or not the old stamp is removed first. */
  lemma StampedEdit(meta: Meta, key: string, value: string, stamp: string)
    requires DistinctKeys(meta)
    ensures key != "updated" ==>
              Put(Put(Pop(meta, "updated"), key, value), "updated", stamp) == Touch(Put(meta, key, value), stamp)
    ensures Put(Put(Pop(meta, "updated"), "updated", value), "updated", stamp) == Touch(meta, stamp)
    ensures Touch(Put(meta, "updated", value), stamp) == Touch(meta, stamp)
  {
    if key != "updated" {
      PopPutOther(meta, "updated", key, value);
    }
    PopPutSame(meta, "updated", value);
    PopGone(meta, "updated");
    var rest := Pop(meta, "updated");
    PutFresh(rest, "updated", value);
    PutFresh(rest, "updated", stamp);
    KeyIndexUnique(rest + [Field("updated", value)], "updated", |rest|);
  }

  lemma CleanIsPlain(meta: Meta)
    requires CleanMeta(meta)
    ensures PlainKeys(meta) && Normal(meta) == meta
  {
    NormalOfCleanKeys(meta);
    FlattenedIsClean(meta);
  }

  /** What a rendered document with plain keys and a clean body reads back as. */
  lemma PlainReadsBack(meta: Meta, body: string)
    requires PlainKeys(meta) && CleanBody(body)
    ensures Parse(Render(meta, body)) == Document(Normal(meta), body)
  {
    PlainFieldsRead(meta);
    ReadsBack(meta, body);
    ReadBodyOfPlain(body);
  }

  lemma EntriesBodyIsClean(entries: seq<string>)
    requires AllEntries(entries)
    ensures CleanBody(Join("\n", entries))
  {
    if entries != [] {
      EntriesAreClean(entries);
    }
  }

  /** One command on a file of entries: the entry lands at the end, a field lands in the
      dictionary, and the stamp goes last. */
  lemma StepReads(file: string, meta: Meta, entries: seq<string>, step: Stamped)
    requires Parse(file) == Document(meta, Join("\n", entries)) && CleanMeta(meta) && AllEntries(entries)
    requires Plain(step.command)
    ensures Execute(file, step).Some?
    ensures AllEntries(entries + NewEntries(step.command)) && CleanMeta(MetaStep(meta, step))
    ensures Parse(Execute(file, step).value)
         == Document(MetaStep(meta, step), Join("\n", entries + NewEntries(step.command)))
  {
    hide IsSpace, IsLineBreak, Put, Pop, Normal, Strip, Flat, Parse, Render, Entry, WithEntry, Join;
    var next := entries + NewEntries(step.command);
    match step.command {
      case Append(text, kind, author) =>
        EntryIsEntry(text, kind, author);
        AppendedBody(entries, Entry(text, kind, author));
        CleanIsPlain(meta);
        TouchKeepsPlain(meta, step.now);
        NormalOfStamp(meta, step.now);
        EntriesBodyIsClean(next);
        PlainReadsBack(Touch(meta, step.now), Join("\n", next));
      case Set(key, value) =>
        assert next == entries;
        NormalOfEdit(meta, key, value, step.now);
        EditIsPlain(meta, key, value, step.now);
        EntriesBodyIsClean(next);
        PlainReadsBack(Touch(Put(meta, key, value), step.now), Join("\n", next));
    }
    ParseIsClean(Execute(file, step).value);
  }

  /** The tag in front of an entry's text. */
  lemma LabelIs(kind: Option<string>, author: Option<string>)
    requires Stripped(OrEmpty(kind)) && Stripped(OrEmpty(author))
    ensures author.Some? && author.value != "" ==>
              Label(kind, author) ==
              if kind.Some? && kind.value != "" then kind.value + " by " + author.value else "by " + author.value
    ensures author == None || author.value == "" ==> Label(kind, author) == if kind.Some? then kind.value else ""
  {
    if author.Some? && author.value != "" {
      var k, b := OrEmpty(kind), author.value;
      if k == "" {
        assert Stripped("by " + b) by {
          assert ("by " + b)[|b| + 2] == b[|b| - 1];
        }
        assert k + " by " + b == " " + ("by " + b) + "";
        assert AllSpace(" ");
        StripBetween(" ", "by " + b, "");
      } else {
        assert (k + " by " + b)[|k| + |b| + 3] == b[|b| - 1];
        StripOfStripped(k + " by " + b);
      }
    }
  }

  /** The kind, "by" the author, or both, in parentheses; nothing if there is neither. */
  function Tag(kind: Option<string>, author: Option<string>): string {
    match (kind, author)
    case (Some(k), Some(a)) =>
      if a == "" then (if k == "" then "" else "(" + k + ") ")
      else if k == "" then "(by " + a + ") "
      else "(" + k + " by " + a + ") "
    case (Some(k), None) => if k == "" then "" else "(" + k + ") "
    case (None, Some(a)) => if a == "" then "" else "(by " + a + ") "
    case (None, None) => ""
  }

  lemma EntryIs(words: seq<string>, gaps: seq<string>, kind: Option<string>, author: Option<string>)
    requires Apart(words, gaps) && Stripped(OrEmpty(kind)) && Stripped(OrEmpty(author))
    ensures Entry(Scattered(words, gaps), kind, author) == "- " + Tag(kind, author) + Join(" ", words)
  {
    hide IsSpace, Scattered, Apart, Join, Label;
    LabelIs(kind, author);
    WordsOfScattered(words, gaps);
    TagsLabel(kind, author);
  }

  lemma TagsLabel(kind: Option<string>, author: Option<string>)
    requires Stripped(OrEmpty(kind)) && Stripped(OrEmpty(author))
    ensures Tag(kind, author) == if Label(kind, author) == "" then "" else "(" + Label(kind, author) + ") "
  {
    hide Label, IsSpace;
    LabelIs(kind, author);
    if author.Some? && author.value != "" && kind.Some? && kind.value != "" {
      var k, a := kind.value, author.value;
      assert "(" + (k + " by " + a) + ") " == "(" + k + " by " + a + ") ";
    } else if author.Some? && author.value != "" {
      assert "(" + ("by " + author.value) + ") " == "(by " + author.value + ") ";
    }
  }

  /** Appending words, however they are spaced, adds one line to a file of entries: a dash, the tag
      and the words with single blanks between them. */
  lemma AppendWritesWords(file: string, entries: seq<string>, words: seq<string>, gaps: seq<string>,
                          kind: Option<string>, author: Option<string>, now: string)
    requires Parse(file).Document? && Parse(file).body == Join("\n", entries) && AllEntries(entries)
    requires Apart(words, gaps)
    requires Stripped(OrEmpty(kind)) && SingleLine(OrEmpty(kind))
    requires Stripped(OrEmpty(author)) && SingleLine(OrEmpty(author))
    ensures var after := Execute(file, Stamped(Append(Scattered(words, gaps), kind, author), now));
            && after.Some? && Parse(after.value).Document?
            && Parse(after.value).body == Join("\n", entries + ["- " + Tag(kind, author) + Join(" ", words)])
  {
    hide IsSpace, IsLineBreak, Parse, Execute, Label, Scattered, Join, Entry, Tag, OrEmpty, CleanMeta;
    EntryIs(words, gaps, kind, author);
    LabelIsSingle(kind, author);
    ParseIsClean(file);
    StepReads(file, Parse(file).meta, entries, Stamped(Append(Scattered(words, gaps), kind, author), now));
  }

  lemma LabelIsSingle(kind: Option<string>, author: Option<string>)
    requires SingleLine(OrEmpty(kind)) && SingleLine(OrEmpty(author))
    ensures SingleLine(Label(kind, author))
  {
    StripStrips(OrEmpty(kind) + " by " + OrEmpty(author));
  }

  lemma NormalOfStamp(meta: Meta, now: string)
    requires CleanMeta(meta)
    ensures Normal(Touch(meta, now)) == Touch(meta, Strip(Flat(now)))
  {
    hide IsSpace, IsLineBreak;
    NormalOfTouch(meta, now);
    TouchKeepsPlain(meta, now);
    CleanIsPlain(Pop(meta, "updated"));
  }

  lemma EditIsPlain(meta: Meta, key: string, value: string, now: string)
    requires CleanMeta(meta) && PlainKey(key)
    ensures PlainKeys(Touch(Put(meta, key, value), now))
  {
    hide IsSpace, IsLineBreak;
    PutKeepsDistinct(meta, key, value);
    TouchKeepsPlain(Put(meta, key, value), now);
  }

  /** Append-only over any run: every command succeeds, the entries of earlier runs stay
      where they are, the new ones follow in order, and `set` never touches them. */
  lemma {:induction false} RunIsAppendOnly(file: string, meta: Meta, entries: seq<string>, steps: seq<Stamped>)
    requires Parse(file) == Document(meta, Join("\n", entries)) && CleanMeta(meta) && AllEntries(entries)
    requires forall i | 0 <= i < |steps| :: Plain(steps[i].command)
    ensures Run(file, steps).Some?
    ensures Parse(Run(file, steps).value)
         == Document(MetaAfter(meta, steps), Join("\n", entries + Entries(steps)))
    ensures EntryCount(Join("\n", entries + Entries(steps))) == |entries| + |Entries(steps)|
    decreases |steps|
  {
    hide IsSpace, IsLineBreak, Parse, Execute, Join, EntryCount, CleanMeta, AllEntries, MetaStep, NewEntries, Plain;
    if steps == [] {
      assert entries + Entries(steps) == entries;
      EntryCountOf(entries);
    } else {
      StepReads(file, meta, entries, steps[0]);
      RunIsAppendOnly(Execute(file, steps[0]).value, MetaStep(meta, steps[0]),
                      entries + NewEntries(steps[0].command), steps[1..]);
      assert entries + NewEntries(steps[0].command) + Entries(steps[1..]) == entries + Entries(steps);
    }
  }

  /** A memlog created with plain keys and then run: `n` appends make exactly `n` entries. */
  lemma InitThenRun(fields: seq<string>, now: string, steps: seq<Stamped>)
    requires InitMeta(fields).Some? && PlainKeys(InitMeta(fields).value)
    requires forall i | 0 <= i < |steps| :: Plain(steps[i].command)
    ensures var file := Render(Touch(InitMeta(fields).value, now), "");
            var meta := Normal(Touch(InitMeta(fields).value, now));
            && Run(file, steps).Some?
            && Parse(Run(file, steps).value) == Document(MetaAfter(meta, steps), Join("\n", Entries(steps)))
            && EntryCount(Join("\n", Entries(steps))) == |Entries(steps)|
            && AllEntries(Entries(steps))
  {
    var meta := Touch(InitMeta(fields).value, now);
    InitIsDistinct(fields);
    TouchKeepsPlain(InitMeta(fields).value, now);
    PlainReadsBack(meta, "");
    ParseIsClean(Render(meta, ""));
    RunIsAppendOnly(Render(meta, ""), Normal(meta), [], steps);
    assert [] + Entries(steps) == Entries(steps);
    EntriesAreEntries(steps);
  }

  /** `init` reads each `key=value` argument at its first "=", so that a value may have more,
      and takes them into the dictionary in order. */
  lemma {:induction false} InitReads(pairs: seq<(string, string)>, fields: seq<string>)
    requires |fields| == |pairs|
    requires forall i | 0 <= i < |pairs| :: '=' !in pairs[i].0 && fields[i] == pairs[i].0 + "=" + pairs[i].1
    requires forall i, j | 0 <= i < j < |pairs| :: Strip(pairs[i].0) != Strip(pairs[j].0)
    ensures InitMeta(fields).Some? && |InitMeta(fields).value| == |pairs|
    ensures forall i | 0 <= i < |pairs| ::
              InitMeta(fields).value[i] == Field(Strip(pairs[i].0), Strip(pairs[i].1))
  {
    hide Strip;
    if pairs != [] {
      var last := |pairs| - 1;
      InitReads(pairs[..last], fields[..last]);
      var meta, k, v := InitMeta(fields[..last]).value, pairs[last].0, pairs[last].1;
      assert fields[last][|k|] == '=' && fields[last][..|k|] == k && fields[last][|k| + 1..] == v;
      IndexOfUnique(fields[last], '=', |k|);
      PutFresh(meta, Strip(k), Strip(v));
    }
  }

  lemma {:induction false} InitRefusesIff(fields: seq<string>)
    ensures InitMeta(fields) == None <==> exists i | 0 <= i < |fields| :: '=' !in fields[i]
  {
    hide Put, Strip, IndexOf;
    if fields != [] {
      var last := |fields| - 1;
      InitRefusesIff(fields[..last]);
      assert forall i | 0 <= i < last :: fields[..last][i] == fields[i];
      if i :| 0 <= i < |fields| && '=' !in fields[i] {
        assert i < last ==> '=' !in fields[..last][i];
      }
    }
  }

  lemma {:induction false} InitIsDistinct(fields: seq<string>)
    requires InitMeta(fields).Some?
    ensures DistinctKeys(InitMeta(fields).value)
  {
    if fields != [] {
      InitIsDistinct(fields[..|fields| - 1]);
    }
  }

  lemma {:induction false} EntriesAreEntries(steps: seq<Stamped>)
    requires forall i | 0 <= i < |steps| :: Plain(steps[i].command)
    ensures AllEntries(Entries(steps))
  {
    if steps != [] {
      EntriesAreEntries(steps[1..]);
      if steps[0].command.Append? {
        EntryIsEntry(steps[0].command.text, steps[0].command.kind, steps[0].command.author);
      }
    }
  }

  /** After any command the stamp is the last field, and the other fields have kept their
      order: those there before come first, under the same keys. */
  lemma {:induction false} FieldsKeepTheirOrder(meta: Meta, steps: seq<Stamped>)
    requires DistinctKeys(meta) && steps != []
    ensures var after := MetaAfter(meta, steps);
            && after != [] && after[|after| - 1].key == "updated"
            && |Pop(meta, "updated")| <= |Pop(after, "updated")|
            && forall i | 0 <= i < |Pop(meta, "updated")| ::
                 Pop(after, "updated")[i].key == Pop(meta, "updated")[i].key
    decreases |steps|
  {
    hide IsSpace, IsLineBreak, MetaStep, Pop, Strip, Flat;
    var next := MetaStep(meta, steps[0]);
    StepKeepsOrder(meta, steps[0]);
    if |steps| > 1 {
      FieldsKeepTheirOrder(next, steps[1..]);
    }
  }

  lemma StepKeepsOrder(meta: Meta, step: Stamped)
    requires DistinctKeys(meta)
    ensures var after := MetaStep(meta, step);
            && DistinctKeys(after)
            && after == Pop(after, "updated") + [Field("updated", Strip(Flat(step.now)))]
            && |Pop(meta, "updated")| <= |Pop(after, "updated")|
            && forall i | 0 <= i < |Pop(meta, "updated")| ::
                 Pop(after, "updated")[i].key == Pop(meta, "updated")[i].key
  {
    hide IsSpace, IsLineBreak, Strip, Flat, Pop;
    var now := Strip(Flat(step.now));
    match step.command {
      case Append(_, _, _) =>
        TouchPutsUpdatedLast(meta, now);
      case Set(key, value) =>
        var k, v := Strip(key), Strip(Flat(value));
        PutKeepsDistinct(meta, k, v);
        TouchPutsUpdatedLast(Put(meta, k, v), now);
        if k == "updated" {
          PopPutSame(meta, k, v);
        } else {
          PopPutOther(meta, "updated", k, v);
        }
    }
  }

  // ---- what the fields are after a run ----

  function ValueOf(meta: Meta, key: string): Option<string> {
    if meta == [] then None else if meta[0].key == key then Some(meta[0].value) else ValueOf(meta[1..], key)
  }

  /** The value in the last `set` of a key. */
  function LastSet(steps: seq<Stamped>, key: string): Option<string> {
    if steps == [] then None
    else
      var later := LastSet(steps[1..], key);
      if later == None && steps[0].command.Set? && Strip(steps[0].command.key) == key then
        Some(steps[0].command.value)
      else later
  }

  lemma {:induction false} ValueOfPut(meta: Meta, key: string, value: string, other: string)
    ensures ValueOf(Put(meta, key, value), other) == if other == key then Some(value) else ValueOf(meta, other)
  {
    if meta == [] {
      assert Put([], key, value) == [Field(key, value)] + [];
    } else {
      var h, t := meta[0], meta[1..];
      assert meta == [h] + t;
      PutCons(h, t, key, value);
      ValueOfPut(t, key, value, other);
    }
  }

  lemma {:induction false} ValueOfPop(meta: Meta, key: string, other: string)
    requires other != key
    ensures ValueOf(Pop(meta, key), other) == ValueOf(meta, other)
  {
    if meta != [] {
      ValueOfPop(meta[1..], key, other);
    }
  }

  lemma ValueOfStep(meta: Meta, step: Stamped, key: string)
    ensures ValueOf(MetaStep(meta, step), key) ==
            if key == "updated" then Some(Strip(Flat(step.now)))
            else if LastSet([step], key).Some? then Some(Strip(Flat(LastSet([step], key).value)))
            else ValueOf(meta, key)
  {
    hide Strip, Flat, Put, Pop, ValueOf, IsSpace, IsLineBreak;
    var now := Strip(Flat(step.now));
    assert [step][1..] == [];
    assert LastSet([], key) == None;
    var edited := if step.command.Set? then Put(meta, Strip(step.command.key), Strip(Flat(step.command.value))) else meta;
    ValueOfPut(Pop(edited, "updated"), "updated", now, key);
    if key != "updated" {
      ValueOfPop(edited, "updated", key);
      if step.command.Set? {
        ValueOfPut(meta, Strip(step.command.key), Strip(Flat(step.command.value)), key);
      }
    }
  }

  /** After any run `updated` is when its last command ran; any other field is what its last
      `set` says, on one line and stripped, and as before if there was none. */
  lemma {:induction false} FieldsAreLastSet(meta: Meta, steps: seq<Stamped>, key: string)
    ensures ValueOf(MetaAfter(meta, steps), key) ==
            if key == "updated" && steps != [] then Some(Strip(Flat(steps[|steps| - 1].now)))
            else if key != "updated" && LastSet(steps, key).Some? then Some(Strip(Flat(LastSet(steps, key).value)))
            else ValueOf(meta, key)
    decreases |steps|
  {
    hide Strip, Flat, MetaStep, ValueOf, IsSpace, IsLineBreak;
    if steps != [] {
      FieldsAreLastSet(MetaStep(meta, steps[0]), steps[1..], key);
      ValueOfStep(meta, steps[0], key);
      assert [steps[0]][1..] == [];
      assert LastSet([], key) == None;
    }
  }

  // ---- which keys `set` may be given ----

  /** A line of the key, other than its last, is exactly the fence. */
  predicate HidesFence(key: string) {
    FENCE in SplitLines(key + ":")
  }

  /** Text after the colon only changes the last line, which is no fence because of the colon. */
  lemma {:induction false} LinesUpToColon(key: string, rest: string)
    requires SingleLine(rest)
    ensures var a, b := SplitLines(key + ":"), SplitLines(key + ":" + rest);
            && |a| == |b| > 0
            && ':' in a[|a| - 1] && ':' in b[|b| - 1]
            && forall i | 0 <= i < |a| - 1 :: a[i] == b[i]
    decreases |key|
  {
    var a, b := key + ":", key + ":" + rest;
    if key == "" {
      assert SingleLine(":") && SingleLine(b);
      SingleLineSplit(":");
      SingleLineSplit(b);
      assert b[0] == ':';
    } else {
      var n := if IsLineBreak(key[0]) then BreakLength(a) else 1;
      assert n <= |key|;
      assert IsLineBreak(key[0]) ==> BreakLength(b) == n;
      assert a[n..] == key[n..] + ":";
      assert b[n..] == key[n..] + ":" + rest;
      LinesUpToColon(key[n..], rest);
    }
  }

  lemma FenceInBoth(a: seq<string>, b: seq<string>)
    requires |a| == |b| > 0 && ':' in a[|a| - 1] && ':' in b[|b| - 1]
    requires forall i | 0 <= i < |a| - 1 :: a[i] == b[i]
    ensures FENCE in a <==> FENCE in b
  {
    assert ':' !in FENCE;
    assert FENCE in a ==> exists i | 0 <= i < |a| - 1 :: a[i] == FENCE;
    assert FENCE in b ==> exists i | 0 <= i < |b| - 1 :: b[i] == FENCE;
  }

  lemma FieldHidesFence(f: Field)
    ensures FENCE in SplitLines(FieldText(f) + "\n") <==> HidesFence(f.key)
  {
    hide IsLineBreak, SplitLines, Flat;
    var rest := " " + Flat(f.value);
    assert FieldText(f) == f.key + ":" + rest;
    SpaceKeepsSingle(Flat(f.value));
    LinesUpToColon(f.key, rest);
    FenceInBoth(SplitLines(f.key + ":"), SplitLines(FieldText(f)));
    TextEndsInLine(f);
    SplitUnterminated(FieldText(f));
  }

  lemma SpaceKeepsSingle(s: string)
    requires SingleLine(s)
    ensures SingleLine(" " + s)
  {
  }

  lemma TextEndsInLine(f: Field)
    ensures FieldText(f) != "" && !IsLineBreak(FieldText(f)[|FieldText(f)| - 1])
  {
    hide Flat;
    var t := FieldText(f);
    assert t[|t| - 1] == if Flat(f.value) == "" then ' ' else Flat(f.value)[|Flat(f.value)| - 1];
  }

  lemma FenceFreeOne(f: Field)
    ensures FenceFree([f]) <==> !HidesFence(f.key)
  {
    assert FieldTexts([f]) == [FieldText(f)];
    FieldHidesFence(f);
  }

  lemma FenceFreeSplit(a: Meta, b: Meta)
    ensures FenceFree(a + b) <==> FenceFree(a) && FenceFree(b)
  {
    if a == [] {
      assert a + b == b;
      PlainFieldsRead(a);
    } else if b == [] {
      assert a + b == a;
      PlainFieldsRead(b);
    } else {
      assert FieldTexts(a + b) == FieldTexts(a) + FieldTexts(b);
      var left, right := Join("\n", FieldTexts(a)), Join("\n", FieldTexts(b));
      JoinSplit("\n", FieldTexts(a), FieldTexts(b));
      assert left + "\n" + right + "\n" == left + "\n" + (right + "\n");
      SplitAtNewline(left, right + "\n");
    }
  }

  lemma PlainKeyHidesNoFence(key: string)
    requires PlainKey(key)
    ensures !HidesFence(key)
  {
    PlainFieldsRead([Field(key, "")]);
    FenceFreeOne(Field(key, ""));
  }

  /** `set` leaves the body of any clean document alone exactly when no line of the key,
      before its last, is the fence. Values are harmless. */
  lemma SetKeepsBodyIff(file: string, key: string, value: string, now: string)
    requires Parse(file).Document? && CleanBody(Parse(file).body)
    ensures var after := Execute(file, Stamped(Set(key, value), now));
            && after.Some?
            && (Parse(after.value).Document? && Parse(after.value).body == Parse(file).body <==> !HidesFence(key))
  {
    hide IsSpace, IsLineBreak, Parse, Render, Touch, Put, FenceFree, HidesFence, ReadBody;
    var meta, body := Parse(file).meta, Parse(file).body;
    ParseIsClean(file);
    EditHidesFence(meta, key, value, now);
    BodySurvivesIffFenceFree(Touch(Put(meta, key, value), now), body);
    ReadBodyOfPlain(body);
  }

  lemma EditHidesFence(meta: Meta, key: string, value: string, now: string)
    requires CleanMeta(meta)
    ensures FenceFree(Touch(Put(meta, key, value), now)) <==> !HidesFence(key)
  {
    hide IsSpace, IsLineBreak, Touch, Put, FenceFree, HidesFence;
    if PlainKey(key) {
      EditIsPlain(meta, key, value, now);
      PlainFieldsRead(Touch(Put(meta, key, value), now));
      PlainKeyHidesNoFence(key);
    } else {
      EditedAtEnd(meta, key, value, now);
      var rest, f, u := Pop(meta, "updated"), Field(key, value), Field("updated", now);
      TouchKeepsPlain(meta, now);
      UpdatedIsClean();
      PlainFieldsRead(rest);
      PlainFieldsRead([u]);
      FenceFreeSplit(rest + [f], [u]);
      FenceFreeSplit(rest, [f]);
      FenceFreeOne(f);
    }
  }

  /** A key no clean dictionary has is added just before the stamp. */
  lemma EditedAtEnd(meta: Meta, key: string, value: string, now: string)
    requires CleanMeta(meta) && !PlainKey(key)
    ensures Touch(Put(meta, key, value), now)
         == Pop(meta, "updated") + [Field(key, value)] + [Field("updated", now)]
  {
    UpdatedIsClean();
    PopIsSubset(meta, "updated");
    PutKeepsDistinct(meta, key, value);
    TouchPutsUpdatedLast(Put(meta, key, value), now);
    PopPutOther(meta, "updated", key, value);
    assert forall i | 0 <= i < |Pop(meta, "updated")| :: Pop(meta, "updated")[i] in meta;
    PutFresh(Pop(meta, "updated"), key, value);
  }

  /** Labels on one line, and keys of `set` that hide no fence; anything else may be as it likes. */
  predicate Harmless(command: Command) {
    match command
    case Append(_, kind, author) => SingleLine(Label(kind, author))
    case Set(key, _) => !HidesFence(key)
  }

  lemma HarmlessStep(file: string, entries: seq<string>, step: Stamped)
    requires Parse(file).Document? && Parse(file).body == Join("\n", entries) && AllEntries(entries)
    requires Harmless(step.command)
    ensures AllEntries(entries + NewEntries(step.command))
    ensures var after := Execute(file, step);
            && after.Some? && Parse(after.value).Document?
            && Parse(after.value).body == Join("\n", entries + NewEntries(step.command))
  {
    hide IsSpace, IsLineBreak, Parse, Join, HidesFence, CleanMeta, CleanBody, Execute, AllEntries;
    match step.command {
      case Append(_, _, _) =>
        ParseIsClean(file);
        StepReads(file, Parse(file).meta, entries, step);
      case Set(key, value) =>
        assert entries + NewEntries(step.command) == entries;
        EntriesBodyIsClean(entries);
        SetKeepsBodyIff(file, key, value, step.now);
    }
  }

  /** Append-only over any run, whatever is set under keys that hide no fence: every command
      succeeds, earlier entries stay where they are, and `n` appends add exactly `n` entries. */
  lemma {:induction false} BodyIsAppendOnly(file: string, entries: seq<string>, steps: seq<Stamped>)
    requires Parse(file).Document? && Parse(file).body == Join("\n", entries) && AllEntries(entries)
    requires forall i | 0 <= i < |steps| :: Harmless(steps[i].command)
    ensures Run(file, steps).Some? && Parse(Run(file, steps).value).Document?
    ensures Parse(Run(file, steps).value).body == Join("\n", entries + Entries(steps))
    ensures EntryCount(Join("\n", entries + Entries(steps))) == |entries| + |Entries(steps)|
    decreases |steps|
  {
    hide IsSpace, IsLineBreak, Parse, Execute, Join, EntryCount, AllEntries, NewEntries, Harmless;
    if steps == [] {
      assert entries + Entries(steps) == entries;
      EntryCountOf(entries);
    } else {
      HarmlessStep(file, entries, steps[0]);
      BodyIsAppendOnly(Execute(file, steps[0]).value, entries + NewEntries(steps[0].command), steps[1..]);
      assert entries + NewEntries(steps[0].command) + Entries(steps[1..]) == entries + Entries(steps);
    }
  }
}
