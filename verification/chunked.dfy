/** `_dechunk` of `scripts/services/git-smart-http.py`: decoding of the chunked transfer coding
    (section 7.1 of RFC 9112), with Python's `int(text, 16)` for the chunk sizes. */
module Chunked {
  import opened Text

  const CR: byte := 13
  const LF: byte := 10
  const SEMICOLON: byte := 59
  const UNDERSCORE: byte := 95
  const PLUS: byte := 43
  const MINUS: byte := 45
  const ZERO: byte := 48

  // ---- int(text, 16) ----

  predicate IsHex(b: byte) {
    48 <= b <= 57 || 65 <= b <= 70 || 97 <= b <= 102
  }

  function HexDigit(b: byte): (d: nat)
    requires IsHex(b)
    ensures d < 16
  {
    if b <= 57 then b - 48 else if b <= 70 then b - 55 else b - 87
  }

  /** The white space `int` skips around a number in bytes. */
  predicate IsBlank(b: byte) {
    9 <= b <= 13 || b == 32
  }

  function TrimLeft(s: seq<byte>): seq<byte> {
    if s != [] && IsBlank(s[0]) then TrimLeft(s[1..]) else s
  }

  function TrimRight(s: seq<byte>): seq<byte> {
    if s != [] && IsBlank(s[|s| - 1]) then TrimRight(s[..|s| - 1]) else s
  }

  /** Digits with single underscores between them. */
  predicate ValidDigits(s: seq<byte>) {
    && s != [] && s[0] != UNDERSCORE && s[|s| - 1] != UNDERSCORE
    && (forall i | 0 <= i < |s| :: IsHex(s[i]) || s[i] == UNDERSCORE)
    && (forall i | 0 <= i < |s| - 1 && s[i] == UNDERSCORE :: s[i + 1] != UNDERSCORE)
  }

  function DigitsValue(s: seq<byte>): nat {
    if s == [] then 0
    else if IsHex(s[|s| - 1]) then 16 * DigitsValue(s[..|s| - 1]) + HexDigit(s[|s| - 1])
    else DigitsValue(s[..|s| - 1])
  }

  /** Drop an optional `0x`, with the one underscore allowed after it. */
  function DropPrefix(s: seq<byte>): seq<byte> {
    if |s| >= 2 && s[0] == ZERO && (s[1] == 88 || s[1] == 120) then
      if |s| > 2 && s[2] == UNDERSCORE then s[3..] else s[2..]
    else s
  }

  /** A number without blanks around it. */
  function ParseSigned(t: seq<byte>): Option<int> {
    var signed := t != [] && (t[0] == PLUS || t[0] == MINUS);
    var digits := DropPrefix(if signed then t[1..] else t);
    if !ValidDigits(digits) then None
    else if signed && t[0] == MINUS then Some(0 - DigitsValue(digits))
    else Some(DigitsValue(digits))
  }

  /** `int(s, 16)`, or `None` for `ValueError`. */
  function ParseSize(s: seq<byte>): Option<int> {
    ParseSigned(TrimRight(TrimLeft(s)))
  }

  // ---- what the texts of sizes are, from the digits themselves ----

  const SMALL := "0123456789abcdef"
  const CAPITAL := "0123456789ABCDEF"

  predicate IsDigitOf(b: byte, d: nat)
    requires d < 16
  {
    b == SMALL[d] as int || b == CAPITAL[d] as int
  }

  /** `text` spells `n` in base sixteen: it ends with the digit of `n % 16`, and what stands
      before that, perhaps parted from it by one underscore, spells `n / 16`. */
  predicate Spells(text: seq<byte>, n: nat) {
    && text != [] && IsDigitOf(text[|text| - 1], n % 16)
    && if |text| == 1 then n < 16
       else if text[|text| - 2] == '_' as int then Spells(text[..|text| - 2], n / 16)
       else Spells(text[..|text| - 1], n / 16)
  }

  /** Blanks around an optional sign, an optional `0x` with an optional underscore, and digits. */
  datatype Numeral = Numeral(before: seq<byte>, sign: seq<byte>, prefix: seq<byte>, digits: seq<byte>, after: seq<byte>)
  {
    function Text(): seq<byte> {
      before + (sign + (prefix + digits)) + after
    }

    predicate Means(v: int) {
      && AllBlank(before) && AllBlank(after)
      && sign in {[], ['+' as int], ['-' as int]}
      && prefix in {[], ['0' as int, 'x' as int], ['0' as int, 'X' as int],
                    ['0' as int, 'x' as int, '_' as int], ['0' as int, 'X' as int, '_' as int]}
      && if sign == ['-' as int] then v <= 0 && Spells(digits, -v) else v >= 0 && Spells(digits, v)
    }
  }

  predicate AllBlank(s: seq<byte>) {
    forall i | 0 <= i < |s| :: s[i] in {9, 10, 11, 12, 13, 32}
  }

  lemma DigitIs(b: byte, d: nat)
    requires d < 16
    ensures IsDigitOf(b, d) <==> IsHex(b) && HexDigit(b) == d
  {
  }

  /** The digits in front of the last one. */
  function AllButLast(text: seq<byte>): seq<byte>
    requires |text| > 1
  {
    if text[|text| - 2] == UNDERSCORE then text[..|text| - 2] else text[..|text| - 1]
  }

  lemma ValueOfLast(text: seq<byte>)
    requires |text| > 1 && IsHex(text[|text| - 1])
    ensures DigitsValue(text) == 16 * DigitsValue(AllButLast(text)) + HexDigit(text[|text| - 1])
  {
    hide HexDigit;
    var front := text[..|text| - 1];
    if text[|text| - 2] == UNDERSCORE {
      assert front[..|front| - 1] == text[..|text| - 2];
    }
  }

  lemma ValidAllButLast(text: seq<byte>)
    requires |text| > 1 && IsHex(text[|text| - 1])
    ensures ValidDigits(text) <==> ValidDigits(AllButLast(text))
  {
    assert text[|text| - 1] != UNDERSCORE;
    hide IsHex;
    var front := AllButLast(text);
    if ValidDigits(text) {
      assert text[|text| - 2] == UNDERSCORE ==> |text| > 2 && text[|text| - 3] != UNDERSCORE;
    }
    if ValidDigits(front) {
      forall i | 0 <= i < |text| ensures IsHex(text[i]) || text[i] == UNDERSCORE {
        assert i < |front| ==> text[i] == front[i];
      }
      forall i | 0 <= i < |text| - 1 && text[i] == UNDERSCORE ensures text[i + 1] != UNDERSCORE {
        assert i < |front| ==> text[i] == front[i];
        assert i + 1 < |front| ==> text[i + 1] == front[i + 1];
      }
    }
  }

  lemma {:induction false} SpellsIff(text: seq<byte>, n: nat)
    ensures Spells(text, n) <==> ValidDigits(text) && DigitsValue(text) == n
  {
    hide DigitsValue, HexDigit, IsDigitOf;
    if text != [] {
      var last := |text| - 1;
      DigitIs(text[last], n % 16);
      if last == 0 {
        OneDigit(text);
      } else if IsHex(text[last]) {
        hide ValidDigits;
        ValueOfLast(text);
        ValidAllButLast(text);
        SpellsIff(AllButLast(text), n / 16);
      }
    }
  }

  lemma OneDigit(text: seq<byte>)
    requires |text| == 1
    ensures ValidDigits(text) <==> IsHex(text[0])
    ensures IsHex(text[0]) ==> DigitsValue(text) == HexDigit(text[0])
  {
    assert text[..0] == [];
  }

  lemma {:induction false} TrimLeftSplits(s: seq<byte>) returns (blanks: seq<byte>)
    ensures AllBlank(blanks) && s == blanks + TrimLeft(s)
    ensures TrimLeft(s) == [] || !IsBlank(TrimLeft(s)[0])
  {
    blanks := [];
    if s != [] && IsBlank(s[0]) {
      var more := TrimLeftSplits(s[1..]);
      blanks := [s[0]] + more;
    }
  }

  lemma {:induction false} TrimRightSplits(s: seq<byte>) returns (blanks: seq<byte>)
    ensures AllBlank(blanks) && s == TrimRight(s) + blanks
  {
    blanks := [];
    if s != [] && IsBlank(s[|s| - 1]) {
      var more := TrimRightSplits(s[..|s| - 1]);
      blanks := more + [s[|s| - 1]];
      assert s == s[..|s| - 1] + [s[|s| - 1]];
    }
  }

  lemma {:induction false} TrimLeftBlanks(blanks: seq<byte>, s: seq<byte>)
    requires AllBlank(blanks) && s != [] && !IsBlank(s[0])
    ensures TrimLeft(blanks + s) == s
  {
    if blanks == [] {
      assert blanks + s == s;
    } else {
      assert (blanks + s)[1..] == blanks[1..] + s;
      TrimLeftBlanks(blanks[1..], s);
    }
  }

  lemma {:induction false} TrimRightBlanks(s: seq<byte>, blanks: seq<byte>)
    requires AllBlank(blanks) && s != [] && !IsBlank(s[|s| - 1])
    ensures TrimRight(s + blanks) == s
  {
    if blanks == [] {
      assert s + blanks == s;
    } else {
      assert (s + blanks)[..|s + blanks| - 1] == s + blanks[..|blanks| - 1];
      TrimRightBlanks(s, blanks[..|blanks| - 1]);
    }
  }

  lemma Trimmed(before: seq<byte>, core: seq<byte>, after: seq<byte>)
    requires AllBlank(before) && AllBlank(after) && core != [] && !IsBlank(core[0]) && !IsBlank(core[|core| - 1])
    ensures TrimRight(TrimLeft(before + core + after)) == core
  {
    assert before + core + after == before + (core + after);
    TrimLeftBlanks(before, core + after);
    TrimRightBlanks(core, after);
  }

  lemma PrefixDrops(prefix: seq<byte>, digits: seq<byte>)
    requires ValidDigits(digits)
    requires prefix in {[], [48, 120], [48, 88], [48, 120, 95], [48, 88, 95]}
    ensures DropPrefix(prefix + digits) == digits
  {
    if prefix == [] {
      assert prefix + digits == digits;
      assert |digits| >= 2 ==> IsHex(digits[1]) || digits[1] == UNDERSCORE;
    } else {
      assert (prefix + digits)[|prefix|..] == digits;
    }
  }

  lemma DigitsAtEnds(digits: seq<byte>)
    requires ValidDigits(digits)
    ensures digits != [] && IsHex(digits[0]) && IsHex(digits[|digits| - 1])
  {
  }

  lemma RestEnds(prefix: seq<byte>, digits: seq<byte>)
    requires digits != [] && IsHex(digits[0]) && IsHex(digits[|digits| - 1])
    requires prefix in {[], [48, 120], [48, 88], [48, 120, 95], [48, 88, 95]}
    ensures var rest := prefix + digits; rest != [] && IsHex(rest[0]) && IsHex(rest[|rest| - 1])
  {
    var rest := prefix + digits;
    assert rest[0] == if prefix == [] then digits[0] else 48;
    assert rest[|rest| - 1] == digits[|digits| - 1];
  }

  lemma CoreEnds(sign: seq<byte>, rest: seq<byte>)
    requires sign in {[], [43], [45]} && rest != [] && IsHex(rest[0]) && IsHex(rest[|rest| - 1])
    ensures var core := sign + rest; core != [] && !IsBlank(core[0]) && !IsBlank(core[|core| - 1])
  {
    var core := sign + rest;
    assert core[0] == if sign == [] then rest[0] else sign[0];
    assert core[|core| - 1] == rest[|rest| - 1];
  }

  lemma SignedParses(sign: seq<byte>, rest: seq<byte>)
    requires sign in {[], [43], [45]} && rest != [] && IsHex(rest[0]) && ValidDigits(DropPrefix(rest))
    ensures ParseSigned(sign + rest) ==
            Some(if sign == [45] then 0 - DigitsValue(DropPrefix(rest)) else DigitsValue(DropPrefix(rest)))
  {
    hide DigitsValue, DropPrefix, ValidDigits;
    if sign == [] {
      assert sign + rest == rest;
    } else {
      assert (sign + rest)[1..] == rest;
    }
  }

  /** Every such text is read, as what it means. */
  lemma NumeralParses(t: Numeral, v: int)
    requires t.Means(v)
    ensures ParseSize(t.Text()) == Some(v)
  {
    hide TrimLeft, TrimRight, DigitsValue, Spells, AllBlank, ValidDigits, ParseSigned, DropPrefix, IsHex, IsBlank;
    SpellsIff(t.digits, if t.sign == ['-' as int] then -v else v);
    DigitsAtEnds(t.digits);
    RestEnds(t.prefix, t.digits);
    CoreEnds(t.sign, t.prefix + t.digits);
    PrefixDrops(t.prefix, t.digits);
    SignedParses(t.sign, t.prefix + t.digits);
    Trimmed(t.before, t.sign + (t.prefix + t.digits), t.after);
  }

  lemma PrefixSplits(s: seq<byte>) returns (prefix: seq<byte>)
    ensures s == prefix + DropPrefix(s)
    ensures prefix in {[], [48, 120], [48, 88], [48, 120, 95], [48, 88, 95]}
  {
    prefix := s[..|s| - |DropPrefix(s)|];
    assert prefix != [] ==> prefix[0] == 48 && prefix[1] in {120, 88} && |prefix| <= 3;
    assert |prefix| == 2 ==> prefix == [48, prefix[1]];
    assert |prefix| == 3 ==> prefix == [48, prefix[1], 95];
  }

  lemma SignSplits(s: seq<byte>) returns (sign: seq<byte>)
    ensures sign in {[], [43], [45]}
    ensures var signed := s != [] && (s[0] == PLUS || s[0] == MINUS);
            && s == sign + (if signed then s[1..] else s)
            && (sign == [45] <==> signed && s[0] == MINUS)
  {
    sign := if s != [] && (s[0] == PLUS || s[0] == MINUS) then [s[0]] else [];
  }

  /** And nothing else is. */
  lemma ParsedIsNumeral(s: seq<byte>) returns (t: Numeral)
    requires ParseSize(s).Some?
    ensures t.Text() == s && t.Means(ParseSize(s).value)
  {
    hide TrimLeft, TrimRight, DigitsValue, Spells, AllBlank, ValidDigits, DropPrefix;
    var before := TrimLeftSplits(s);
    var after := TrimRightSplits(TrimLeft(s));
    var core := TrimRight(TrimLeft(s));
    var sign := SignSplits(core);
    var rest := if core != [] && (core[0] == PLUS || core[0] == MINUS) then core[1..] else core;
    var prefix := PrefixSplits(rest);
    var digits := DropPrefix(rest);
    SpellsIff(digits, DigitsValue(digits));
    t := Numeral(before, sign, prefix, digits, after);
    assert s == before + (core + after);
    assert t.Text() == s;
  }

  /** `int(text, 16)` is exactly this. */
  lemma SizeIsNumeral(s: seq<byte>, v: int)
    ensures ParseSize(s) == Some(v) <==> exists t: Numeral :: t.Text() == s && t.Means(v)
  {
    hide ParseSize, Numeral.Means, Numeral.Text;
    if ParseSize(s) == Some(v) {
      var t := ParsedIsNumeral(s);
    }
    if t: Numeral :| t.Text() == s && t.Means(v) {
      NumeralParses(t, v);
    }
  }

  predicate HexText(s: seq<byte>) {
    s != [] && forall i | 0 <= i < |s| :: IsHex(s[i])
  }

  /** The shortest numeral of `n` over sixteen digits. */
  function HexOf(n: nat, digits: string): seq<byte>
    requires digits in {"0123456789abcdef", "0123456789ABCDEF"}
  {
    if n < 16 then [digits[n] as int] else HexOf(n / 16, digits) + [digits[n % 16] as int]
  }

  lemma DigitText(digits: string, d: nat)
    requires digits in {"0123456789abcdef", "0123456789ABCDEF"} && d < 16
    ensures digits[d] as int < 256 && IsHex(digits[d] as int) && IsDigitOf(digits[d] as int, d)
    ensures digits[d] != '_'
  {
  }

  lemma {:induction false} HexOfSpells(n: nat, digits: string)
    requires digits in {"0123456789abcdef", "0123456789ABCDEF"}
    ensures HexText(HexOf(n, digits)) && Spells(HexOf(n, digits), n)
  {
    hide IsHex, IsDigitOf;
    DigitText(digits, n % 16);
    if n >= 16 {
      HexOfSpells(n / 16, digits);
      SpellsMore(HexOf(n / 16, digits), n / 16, digits[n % 16] as int, n);
    }
  }

  lemma SpellsMore(high: seq<byte>, m: nat, b: byte, n: nat)
    requires HexText(high) && Spells(high, m) && IsHex(b) && IsDigitOf(b, n % 16) && m == n / 16
    ensures HexText(high + [b]) && Spells(high + [b], n)
  {
    hide IsDigitOf;
    var text := high + [b];
    assert text[..|text| - 1] == high && text[|text| - 2] == high[|high| - 1];
  }

  // ---- the decoder ----

  /** Index of the first CR LF at or after `i`, or `|s|`. */
  function FindCrlf(s: seq<byte>, i: nat): (j: nat)
    requires i <= |s|
    ensures i <= j <= |s|
    ensures j < |s| ==> j + 1 < |s| && s[j] == CR && s[j + 1] == LF
    ensures forall k | i <= k < j && k + 1 < |s| :: !(s[k] == CR && s[k + 1] == LF)
    decreases |s| - i
  {
    if i + 1 >= |s| then |s|
    else if s[i] == CR && s[i + 1] == LF then i
    else FindCrlf(s, i + 1)
  }

  /** `s.split(b";")[0]` */
  function BeforeSemicolon(s: seq<byte>): seq<byte> {
    if s == [] || s[0] == SEMICOLON then [] else [s[0]] + BeforeSemicolon(s[1..])
  }

  /** A decoded body; a `ValueError`; or a negative size, which no chunk can have. */
  datatype Decoded = Body(bytes: seq<byte>) | InvalidSize | NegativeSize

  function Prepend(data: seq<byte>, d: Decoded): Decoded {
    if d.Body? then Body(data + d.bytes) else d
  }

  /** The bytes `s[a:b]` for `0 <= a <= b`, whatever the length of `s`. */
  function Slice(s: seq<byte>, a: nat, b: nat): seq<byte>
    requires a <= b
  {
    s[Min(a, |s|)..Min(b, |s|)]
  }

  function Min(a: nat, b: nat): nat {
    if a <= b then a else b
  }

  /** The size line at a position: none to its end, or where it ends and what it says. */
  datatype SizeLine = NoLine | Line(end: nat, size: Option<int>)

  function ReadLine(s: seq<byte>, i: nat): (line: SizeLine)
    requires i <= |s|
    ensures line.Line? ==> i <= line.end < |s|
  {
    var j := FindCrlf(s, i);
    if j == |s| then NoLine else Line(j, ParseSize(BeforeSemicolon(s[i..j])))
  }

  /** What is read from position `i` on, chunk after chunk, up to a size that is negative. */
  function DecodeFrom(s: seq<byte>, i: nat): Decoded
    decreases |s| - i
  {
    if i >= |s| then Body([])
    else
      match ReadLine(s, i)
      case NoLine => Body([])
      case Line(_, None) => InvalidSize
      case Line(j, Some(size)) =>
        if size < 0 then NegativeSize
        else if size == 0 then Body([])
        else Prepend(Slice(s, j + 2, j + 2 + size), DecodeFrom(s, j + 2 + size + 2))
  }

  function Decode(payload: seq<byte>): Decoded {
    DecodeFrom(payload, 0)
  }

  lemma PrependTwice(a: seq<byte>, b: seq<byte>, d: Decoded)
    ensures Prepend(a, Prepend(b, d)) == Prepend(a + b, d)
  {
    if d.Body? {
      assert a + (b + d.bytes) == a + b + d.bytes;
    }
  }

  // ---- decoding from a position is decoding the rest ----

  lemma {:induction false} FindShifted(s: seq<byte>, m: nat, i: nat)
    requires m + i <= |s|
    ensures FindCrlf(s, m + i) == m + FindCrlf(s[m..], i)
    decreases |s| - m - i
  {
    if m + i + 1 < |s| && !(s[m + i] == CR && s[m + i + 1] == LF) {
      FindShifted(s, m, i + 1);
    }
  }

  lemma LineShifted(s: seq<byte>, m: nat, i: nat)
    requires m + i <= |s|
    ensures ReadLine(s, m + i) == match ReadLine(s[m..], i)
                                  case NoLine => NoLine
                                  case Line(end, size) => Line(m + end, size)
  {
    hide ParseSize, FindCrlf, BeforeSemicolon;
    FindShifted(s, m, i);
    var j := FindCrlf(s[m..], i);
    assert s[m..][i..j] == s[m + i..m + j];
  }

  lemma SliceShifted(s: seq<byte>, m: nat, a: nat, b: nat)
    requires m <= |s| && a <= b
    ensures Slice(s[m..], a, b) == Slice(s, m + a, m + b)
  {
  }

  lemma {:induction false} DecodeShifted(s: seq<byte>, m: nat, i: nat)
    requires m <= |s|
    ensures DecodeFrom(s, m + i) == DecodeFrom(s[m..], i)
    decreases |s| - m - i
  {
    hide ReadLine, Slice;
    if m + i < |s| {
      LineShifted(s, m, i);
      var line := ReadLine(s[m..], i);
      if line.Line? && line.size.Some? && line.size.value > 0 {
        var from, to := line.end + 2, line.end + 2 + line.size.value;
        DecodeShifted(s, m, to + 2);
        SliceShifted(s, m, from, to);
      }
    }
  }

  // ---- the encoder, as section 7.1 of RFC 9112 has it ----

  /** A chunk: any hexadecimal spelling of its size, an extension, and its data. */
  datatype Chunk = Chunk(size: seq<byte>, extension: seq<byte>, data: seq<byte>)

  predicate NoCrlf(s: seq<byte>) {
    forall i | 0 <= i < |s| - 1 :: !(s[i] == CR && s[i + 1] == LF)
  }

  /** Spaces and tabs, then nothing more or a semicolon and anything without CR LF. */
  predicate ValidExtension(s: seq<byte>) {
    NoCrlf(s) && exists k | 0 <= k <= |s| :: PaddedTo(s, k)
  }

  predicate PaddedTo(s: seq<byte>, k: nat)
    requires k <= |s|
  {
    (forall i | 0 <= i < k :: s[i] in {32, 9}) && (k == |s| || s[k] == ';' as int)
  }

  predicate ValidHeader(size: seq<byte>, n: nat, extension: seq<byte>) {
    HexText(size) && Spells(size, n) && ValidExtension(extension)
  }

  predicate ValidChunk(c: Chunk) {
    ValidHeader(c.size, |c.data|, c.extension) && c.data != []
  }

  function Header(size: seq<byte>, extension: seq<byte>): seq<byte> {
    size + extension + [CR, LF]
  }

  function EncodeChunk(c: Chunk): seq<byte> {
    Header(c.size, c.extension) + (c.data + [CR, LF])
  }

  function EncodeAll(chunks: seq<Chunk>): seq<byte> {
    if chunks == [] then [] else EncodeChunk(chunks[0]) + EncodeAll(chunks[1..])
  }

  function DataOf(chunks: seq<Chunk>): seq<byte> {
    if chunks == [] then [] else chunks[0].data + DataOf(chunks[1..])
  }

  predicate AllValid(chunks: seq<Chunk>) {
    forall i | 0 <= i < |chunks| :: ValidChunk(chunks[i])
  }

  // ---- reading one header ----

  lemma {:induction false} BeforeSemicolonOf(size: seq<byte>, extension: seq<byte>)
    requires forall i | 0 <= i < |size| :: size[i] != SEMICOLON
    ensures BeforeSemicolon(size + extension) == size + BeforeSemicolon(extension)
  {
    if size == [] {
      assert size + extension == extension;
    } else {
      assert (size + extension)[1..] == size[1..] + extension;
      BeforeSemicolonOf(size[1..], extension);
      assert [size[0]] + (size[1..] + BeforeSemicolon(extension)) == size + BeforeSemicolon(extension);
    }
  }

  lemma {:induction false} BlanksBeforeSemicolon(s: seq<byte>, k: nat)
    requires k <= |s| && PaddedTo(s, k)
    ensures BeforeSemicolon(s) == s[..k]
  {
    if k > 0 {
      BlanksBeforeSemicolon(s[1..], k - 1);
    }
  }

  /** A size with blanks and an extension after it parses to the number it spells. */
  lemma HeaderParses(size: seq<byte>, n: nat, extension: seq<byte>)
    requires ValidHeader(size, n, extension)
    ensures ParseSize(BeforeSemicolon(size + extension)) == Some(n)
  {
    hide ParseSize, BeforeSemicolon, NoCrlf, Spells;
    var k :| 0 <= k <= |extension| && PaddedTo(extension, k);
    BlanksBeforeSemicolon(extension, k);
    BeforeSemicolonOf(size, extension);
    var t := Numeral([], [], [], size, extension[..k]);
    assert t.Text() == size + extension[..k];
    NumeralParses(t, n);
  }

  lemma {:induction false} FindUnique(s: seq<byte>, i: nat, j: nat)
    requires i <= j && j + 1 < |s| && s[j] == CR && s[j + 1] == LF
    requires forall k | i <= k < j :: !(s[k] == CR && s[k + 1] == LF)
    ensures FindCrlf(s, i) == j
    decreases j - i
  {
    if i < j {
      FindUnique(s, i + 1, j);
    }
  }

  /** The header of a chunk ends at the first CR LF of whatever starts with it. */
  lemma HeaderFound(size: seq<byte>, n: nat, extension: seq<byte>, s: seq<byte>)
    requires ValidHeader(size, n, extension) && Header(size, extension) <= s
    ensures FindCrlf(s, 0) == |size| + |extension|
    ensures ReadLine(s, 0) == Line(|size| + |extension|, Some(n))
  {
    hide ParseSize, BeforeSemicolon, Spells;
    var j, h := |size| + |extension|, Header(size, extension);
    assert h[j] == CR && h[j + 1] == LF;
    assert s[j] == h[j] && s[j + 1] == h[j + 1];
    forall k | 0 <= k < j ensures !(s[k] == CR && s[k + 1] == LF) {
      assert s[k] == h[k] && s[k + 1] == h[k + 1];
      if k < |size| {
        assert h[k] == size[k];
      } else if k + 1 < j {
        assert h[k] == extension[k - |size|] && h[k + 1] == extension[k - |size| + 1];
      }
    }
    FindUnique(s, 0, j);
    assert s[0..j] == size + extension;
    HeaderParses(size, n, extension);
  }

  /** A truncated header has no CR LF, so nothing is decoded from it. */
  lemma TruncatedHeader(size: seq<byte>, n: nat, extension: seq<byte>, s: seq<byte>)
    requires ValidHeader(size, n, extension) && s <= Header(size, extension) && |s| < |Header(size, extension)|
    ensures Decode(s) == Body([])
  {
    hide ParseSize, BeforeSemicolon, Spells;
    var h := Header(size, extension);
    HeaderFound(size, n, extension, h);
    forall k | 0 <= k < |s| - 1 ensures !(s[k] == CR && s[k + 1] == LF) {
      assert s[k] == h[k] && s[k + 1] == h[k + 1];
    }
  }

  // ---- reading one chunk, whole or cut off ----

  lemma ChunkAtFront(c: Chunk, s: seq<byte>)
    requires ValidChunk(c) && EncodeChunk(c) <= s
    ensures Decode(s) == Prepend(c.data, DecodeFrom(s, |EncodeChunk(c)|))
  {
    hide ReadLine, Slice, Spells, ValidHeader;
    DataBehindHeader(c, s);
    HeaderFound(c.size, |c.data|, c.extension, s);
  }

  lemma DataBehindHeader(c: Chunk, s: seq<byte>)
    requires EncodeChunk(c) <= s
    ensures var n := |Header(c.size, c.extension)|;
            Header(c.size, c.extension) <= s && Slice(s, n, n + |c.data|) == c.data
  {
    var header := Header(c.size, c.extension);
    assert header <= EncodeChunk(c);
    assert EncodeChunk(c)[|header|..|header| + |c.data|] == c.data;
    assert s[..|EncodeChunk(c)|] == EncodeChunk(c);
    assert s[|header|..|header| + |c.data|] == EncodeChunk(c)[|header|..|header| + |c.data|];
  }

  lemma WholeChunk(c: Chunk, rest: seq<byte>)
    requires ValidChunk(c)
    ensures Decode(EncodeChunk(c) + rest) == Prepend(c.data, Decode(rest))
  {
    hide DecodeFrom;
    var s := EncodeChunk(c) + rest;
    ChunkAtFront(c, s);
    DecodeShifted(s, |EncodeChunk(c)|, 0);
    assert s[|EncodeChunk(c)|..] == rest;
  }

  lemma TruncatedChunk(c: Chunk, s: seq<byte>)
    requires ValidChunk(c) && s <= EncodeChunk(c) && |s| < |EncodeChunk(c)|
    ensures Decode(s).Body? && Decode(s).bytes <= c.data
  {
    hide ReadLine, Slice, Spells, ValidHeader;
    var header, h := Header(c.size, c.extension), |c.size| + |c.extension|;
    if |s| < |header| {
      assert s <= header;
      TruncatedHeader(c.size, |c.data|, c.extension, s);
    } else {
      DataCutOff(c, s);
      HeaderFound(c.size, |c.data|, c.extension, s);
      var data := Slice(s, h + 2, h + 2 + |c.data|);
      assert Decode(s) == Prepend(data, DecodeFrom(s, h + 2 + |c.data| + 2));
      assert data + [] == data;
    }
  }

  lemma DataCutOff(c: Chunk, s: seq<byte>)
    requires s <= EncodeChunk(c) && |s| >= |Header(c.size, c.extension)|
    ensures var n := |Header(c.size, c.extension)|;
            Header(c.size, c.extension) <= s && Slice(s, n, n + |c.data|) <= c.data
  {
    var header := Header(c.size, c.extension);
    assert header <= s;
    var data := Slice(s, |header|, |header| + |c.data|);
    assert forall k | 0 <= k < |data| :: data[k] == s[|header| + k] == EncodeChunk(c)[|header| + k] == c.data[k];
  }

  // ---- the theorems ----

  /** What may follow the chunks: a last chunk of size zero, with any extension, and anything
      at all after it. */
  function Ending(size: seq<byte>, extension: seq<byte>, trailer: seq<byte>): seq<byte> {
    Header(size, extension) + trailer
  }

  lemma EndingDecodes(size: seq<byte>, extension: seq<byte>, trailer: seq<byte>)
    requires ValidHeader(size, 0, extension)
    ensures Decode(Ending(size, extension, trailer)) == Body([])
  {
    hide ReadLine;
    HeaderFound(size, 0, extension, Ending(size, extension, trailer));
  }

  /** Decoding inverts encoding: any spelling of the sizes, any extensions, any data bytes,
      any trailer. */
  lemma {:induction false} DecodeInvertsEncode(chunks: seq<Chunk>, size: seq<byte>, extension: seq<byte>, trailer: seq<byte>)
    requires AllValid(chunks) && ValidHeader(size, 0, extension)
    ensures Decode(EncodeAll(chunks) + Ending(size, extension, trailer)) == Body(DataOf(chunks))
  {
    var end := Ending(size, extension, trailer);
    if chunks == [] {
      assert EncodeAll(chunks) + end == end;
      EndingDecodes(size, extension, trailer);
    } else {
      assert EncodeAll(chunks) + end == EncodeChunk(chunks[0]) + (EncodeAll(chunks[1..]) + end);
      WholeChunk(chunks[0], EncodeAll(chunks[1..]) + end);
      DecodeInvertsEncode(chunks[1..], size, extension, trailer);
    }
  }

  /** However early a valid encoding is cut off, what is decoded is a prefix of the body. */
  lemma {:induction false} TruncationDecodesPrefix(chunks: seq<Chunk>, size: seq<byte>, extension: seq<byte>,
                                                   trailer: seq<byte>, s: seq<byte>)
    requires AllValid(chunks) && ValidHeader(size, 0, extension)
    requires s <= EncodeAll(chunks) + Ending(size, extension, trailer)
    ensures Decode(s).Body? && Decode(s).bytes <= DataOf(chunks)
    decreases |chunks|
  {
    hide Decode, ValidHeader, ValidChunk;
    var end := Ending(size, extension, trailer);
    if chunks == [] {
      assert EncodeAll(chunks) + end == end;
      if |s| < |Header(size, extension)| {
        TruncatedHeader(size, 0, extension, s);
      } else {
        var cut := s[|Header(size, extension)|..];
        assert s == Ending(size, extension, cut);
        EndingDecodes(size, extension, cut);
      }
    } else {
      var first, rest := EncodeChunk(chunks[0]), EncodeAll(chunks[1..]) + end;
      assert EncodeAll(chunks) + end == first + rest;
      if |s| < |first| {
        assert s <= first;
        TruncatedChunk(chunks[0], s);
      } else {
        var cut := s[|first|..];
        assert s == first + cut && cut <= rest;
        WholeChunk(chunks[0], cut);
        TruncationDecodesPrefix(chunks[1..], size, extension, trailer, cut);
      }
    }
  }

  /** Pieces of a body, each as one chunk whose size is its length in hexadecimal digits. */
  function EncodePieces(pieces: seq<seq<byte>>, digits: string): seq<byte>
    requires digits in {"0123456789abcdef", "0123456789ABCDEF"}
  {
    if pieces == [] then []
    else HexOf(|pieces[0]|, digits) + [13, 10] + pieces[0] + [13, 10] + EncodePieces(pieces[1..], digits)
  }

  function Flatten(pieces: seq<seq<byte>>): seq<byte> {
    if pieces == [] then [] else pieces[0] + Flatten(pieces[1..])
  }

  lemma Regroup(size: seq<byte>, data: seq<byte>, more: seq<byte>, end: seq<byte>)
    ensures size + [13, 10] + data + [13, 10] + more + end == EncodeChunk(Chunk(size, [], data)) + (more + end)
  {
    assert size + [] == size;
    var piece := size + [13, 10] + data + [13, 10];
    assert piece == EncodeChunk(Chunk(size, [], data));
    assert piece + more + end == piece + (more + end);
  }

  /** A body sent in pieces, with their lengths in small or in capital digits, comes back. */
  lemma {:induction false} PiecesComeBack(pieces: seq<seq<byte>>, digits: string, trailer: seq<byte>)
    requires digits in {"0123456789abcdef", "0123456789ABCDEF"} && forall i | 0 <= i < |pieces| :: pieces[i] != []
    ensures Decode(EncodePieces(pieces, digits) + ['0' as int, 13, 10] + trailer) == Body(Flatten(pieces))
  {
    hide Decode, Spells, HexOf, EncodeChunk, ValidExtension, HexText;
    var end := ['0' as int, 13, 10] + trailer;
    assert EncodePieces(pieces, digits) + ['0' as int, 13, 10] + trailer == EncodePieces(pieces, digits) + end;
    if pieces == [] {
      assert EncodePieces(pieces, digits) + end == end;
      ZeroSpelled(digits);
      NoExtension();
      assert Ending(HexOf(0, digits), [], trailer) == end;
      EndingDecodes(HexOf(0, digits), [], trailer);
    } else {
      var c := Chunk(HexOf(|pieces[0]|, digits), [], pieces[0]);
      HexOfSpells(|pieces[0]|, digits);
      NoExtension();
      var rest := EncodePieces(pieces[1..], digits) + end;
      Regroup(c.size, pieces[0], EncodePieces(pieces[1..], digits), end);
      WholeChunk(c, rest);
      PiecesComeBack(pieces[1..], digits, trailer);
      assert EncodePieces(pieces[1..], digits) + ['0' as int, 13, 10] + trailer == rest;
    }
  }

  lemma NoExtension()
    ensures ValidExtension([])
  {
    assert PaddedTo([], 0);
  }

  lemma ZeroSpelled(digits: string)
    requires digits in {"0123456789abcdef", "0123456789ABCDEF"}
    ensures HexOf(0, digits) == ['0' as int] && HexText(HexOf(0, digits)) && Spells(HexOf(0, digits), 0)
  {
    HexOfSpells(0, digits);
  }

  // ---- the loop itself, with Python's indexing ----

  /** An index as Python reads it: negative counts from the end, and it stops at the ends. */
  function Bound(n: nat, x: int): (b: nat)
    ensures b <= n
  {
    if x >= 0 then Min(x, n) else if n + x < 0 then 0 else n + x
  }

  function PythonSlice(s: seq<byte>, a: int, b: int): seq<byte> {
    var lo, hi := Bound(|s|, a), Bound(|s|, b);
    if lo <= hi then s[lo..hi] else []
  }

  /** `s[a:b]` for every pair of numbers: one below zero counts from the end, one beyond an end
      means that end, and nothing lies between the second and the first. */
  lemma PythonSlices(s: seq<byte>, a: int, b: int)
    ensures 0 <= a <= b <= |s| ==> PythonSlice(s, a, b) == s[a..b]
    ensures 0 <= b <= a ==> PythonSlice(s, a, b) == []
    ensures a > |s| ==> PythonSlice(s, a, b) == []
    ensures b > |s| ==> PythonSlice(s, a, b) == PythonSlice(s, a, |s|)
    ensures -|s| <= a < 0 ==> PythonSlice(s, a, b) == PythonSlice(s, |s| + a, b)
    ensures -|s| <= b < 0 ==> PythonSlice(s, a, b) == PythonSlice(s, a, |s| + b)
    ensures a < -|s| ==> PythonSlice(s, a, b) == PythonSlice(s, 0, b)
    ensures b < -|s| ==> PythonSlice(s, a, b) == []
  {
  }

  datatype Progress = Going(i: int, out: seq<byte>) | Stopped(result: Decoded)

  const START: Progress := Going(0, [])

  /** One turn of the loop, whatever the sign of the size. */
  function Turn(s: seq<byte>, p: Progress): (next: Progress)
    ensures p.Stopped? ==> next == p
  {
    if p.Stopped? then p
    else if p.i >= |s| then Stopped(Body(p.out))
    else
      var j := FindCrlf(s, Bound(|s|, p.i));
      if j == |s| then Stopped(Body(p.out))
      else
        match ParseSize(BeforeSemicolon(PythonSlice(s, p.i, j)))
        case None => Stopped(InvalidSize)
        case Some(size) =>
          if size == 0 then Stopped(Body(p.out))
          else Going(j + 2 + size + 2, p.out + PythonSlice(s, j + 2, j + 2 + size))
  }

  function Turns(s: seq<byte>, p: Progress, n: nat): Progress {
    if n == 0 then p else Turn(s, Turns(s, p, n - 1))
  }

  /** `_dechunk`: `None` says that the loop goes on for ever. The count of the turns is not in
      the source; it decides that question, for which one turn per byte and one more are enough. */
  method Dechunk(payload: seq<byte>) returns (r: Option<Decoded>)
    ensures r == None <==> forall n: nat :: At(payload, n).Some?
    ensures r.Some? ==> exists n: nat :: Turns(payload, START, n) == Stopped(r.value)
    ensures Decode(payload) != NegativeSize ==> r == Some(Decode(payload))
  {
    hide ParseSize, FindCrlf, BeforeSemicolon, PythonSlice, Bound, DecodeFrom;
    var out: seq<byte> := [];
    var i: int := 0;
    var turns: nat := 0;
    while i < |payload| && turns <= |payload|
      invariant turns <= |payload| + 1
      invariant Turns(payload, START, turns) == Going(i, out)
      decreases |payload| + 1 - turns
    {
      StopDecides(payload, turns + 1);
      var j := FindCrlf(payload, Bound(|payload|, i));
      if j == |payload| {
        break;
      }
      var size := ParseSize(BeforeSemicolon(PythonSlice(payload, i, j)));
      if size.None? {
        return Some(InvalidSize);
      }
      if size.value == 0 {
        break;
      }
      out := out + PythonSlice(payload, j + 2, j + 2 + size.value);
      i := j + 2 + size.value + 2;
      turns := turns + 1;
    }
    StopDecides(payload, turns + 1);
    StopDecides(payload, turns);
    if i < |payload| && turns == |payload| + 1 {
      return None;
    }
    r := Some(Body(out));
  }

  // ---- when the loop stops ----

  /** A turn looks at the position only through its place in the payload. */
  function TurnAt(s: seq<byte>, place: nat, out: seq<byte>): Progress
    requires place <= |s|
  {
    if place == |s| then Stopped(Body(out))
    else
      match ReadLine(s, place)
      case NoLine => Stopped(Body(out))
      case Line(_, None) => Stopped(InvalidSize)
      case Line(j, Some(size)) =>
        if size == 0 then Stopped(Body(out))
        else Going(j + 2 + size + 2, out + PythonSlice(s, j + 2, j + 2 + size))
  }

  lemma BoundOf(n: nat, x: int)
    ensures x >= n ==> Bound(n, x) == n
    ensures x < n && n > 0 ==> Bound(n, x) < n
  {
  }

  lemma SliceToEnd(s: seq<byte>, i: int, j: nat)
    requires Bound(|s|, i) <= j <= |s|
    ensures PythonSlice(s, i, j) == s[Bound(|s|, i)..j]
  {
  }

  lemma TurnIsAtPlace(s: seq<byte>, i: int, out: seq<byte>)
    ensures Turn(s, Going(i, out)) == TurnAt(s, Bound(|s|, i), out)
  {
    hide ParseSize, BeforeSemicolon, FindCrlf, PythonSlice, Bound;
    BoundOf(|s|, i);
    if i < |s| {
      SliceToEnd(s, i, FindCrlf(s, Bound(|s|, i)));
    }
  }

  /** A turn at a size line: no number is an error; zero stops the loop; any other number `v`
      adds what the payload has from the end of the line to `v` bytes further on, which for a
      number below zero is nothing or counted from the end of the payload, and moves on by the
      line, `v` and four. */
  lemma TurnReads(before: seq<byte>, line: seq<byte>, rest: seq<byte>, out: seq<byte>)
    requires forall i | 0 <= i < |line| :: line[i] != ';' as int && line[i] != 13
    ensures var s, i := before + line + [13, 10] + rest, |before| + |line| + 2;
            Turn(s, Going(|before|, out)) ==
            if ParseSize(line) == None then Stopped(InvalidSize)
            else
              var v := ParseSize(line).value;
              var added := if v >= 0 then rest[..if v <= |rest| then v else |rest|]
                           else if i + v >= 0 || |rest| + i + v < 0 then []
                           else rest[..|rest| + i + v];
              if v == 0 then Stopped(Body(out)) else Going(|before| + |line| + v + 4, out + added)
  {
    hide ParseSize, BeforeSemicolon, FindCrlf, Bound, PythonSlice;
    var s, j := before + line + [13, 10] + rest, |before| + |line|;
    assert s[j] == 13 && s[j + 1] == 10 && s[|before|..j] == line && s[j + 2..] == rest;
    assert forall k | |before| <= k < j :: s[k] == line[k - |before|];
    FindUnique(s, |before|, j);
    TurnIsAtPlace(s, |before|, out);
    BoundOf(|s|, |before|);
    BoundInside(|s|, |before|);
    NoSemicolon(line);
    if ParseSize(line).Some? {
      SliceAfter(s, j + 2, ParseSize(line).value);
    }
  }

  lemma BoundInside(n: nat, x: int)
    requires 0 <= x <= n
    ensures Bound(n, x) == x
  {
  }

  lemma {:induction false} NoSemicolon(line: seq<byte>)
    requires forall i | 0 <= i < |line| :: line[i] != SEMICOLON
    ensures BeforeSemicolon(line) == line
  {
    if line != [] {
      NoSemicolon(line[1..]);
    }
  }

  lemma SliceAfter(s: seq<byte>, i: nat, v: int)
    requires i <= |s|
    ensures var rest := s[i..];
            PythonSlice(s, i, i + v) ==
            if v >= 0 then rest[..if v <= |rest| then v else |rest|]
            else if i + v >= 0 || |rest| + i + v < 0 then []
            else rest[..|rest| + i + v]
  {
  }

  lemma {:induction false} StoppedStays(s: seq<byte>, p: Progress, m: nat, n: nat)
    requires m <= n && Turns(s, p, m).Stopped?
    ensures Turns(s, p, n) == Turns(s, p, m)
    decreases n
  {
    hide Turn;
    if m < n {
      StoppedStays(s, p, m, n - 1);
    }
  }

  /** Where the loop is after `n` turns, if it is still going. */
  function At(s: seq<byte>, n: nat): (place: Option<nat>)
    ensures place.Some? ==> place.value <= |s|
  {
    match Turns(s, START, n)
    case Stopped(_) => None
    case Going(i, _) => Some(Bound(|s|, i))
  }

  /** Two turns that find the loop at one place. */
  predicate Repeats(s: seq<byte>, a: nat, b: nat) {
    a < b && At(s, a).Some? && At(s, a) == At(s, b)
  }

  lemma SamePlaceSameTurn(s: seq<byte>, a: nat, b: nat)
    requires At(s, a).Some? && At(s, a) == At(s, b)
    ensures At(s, a + 1) == At(s, b + 1)
  {
    hide ReadLine, Turn, Bound, PythonSlice;
    var p, q := Turns(s, START, a), Turns(s, START, b);
    TurnIsAtPlace(s, p.i, p.out);
    TurnIsAtPlace(s, q.i, q.out);
  }

  lemma GoingBefore(s: seq<byte>, m: nat, n: nat)
    requires m <= n && At(s, n).Some?
    ensures At(s, m).Some?
  {
    hide Turn, Turns;
    if At(s, m) == None {
      StoppedStays(s, START, m, n);
    }
  }

  /** Once a place is repeated, so are all that follow it. */
  lemma {:induction false} RepeatedForEver(s: seq<byte>, a: nat, b: nat, k: nat)
    requires Repeats(s, a, b)
    ensures At(s, a + k).Some? && At(s, a + k) == At(s, b + k)
    decreases k
  {
    hide At;
    if k > 0 {
      RepeatedForEver(s, a, b, k - 1);
      GoingBefore(s, a + k, b + (k - 1));
      SamePlaceSameTurn(s, a + (k - 1), b + (k - 1));
      assert a + (k - 1) + 1 == a + k && b + (k - 1) + 1 == b + k;
    }
  }

  lemma RepeatGoesOn(s: seq<byte>, a: nat, b: nat, n: nat)
    requires Repeats(s, a, b)
    ensures At(s, n).Some?
  {
    hide At;
    if n >= b {
      RepeatedForEver(s, a, b, n - b);
      assert b + (n - b) == n;
    } else {
      GoingBefore(s, n, b);
    }
  }

  /** More different places than there are cannot be visited. */
  lemma {:induction false} Pigeonhole(places: seq<nat>, n: nat)
    requires |places| > n && forall k | 0 <= k < |places| :: places[k] < n
    ensures exists a, b | 0 <= a < b < |places| :: places[a] == places[b]
  {
    if forall a, b | 0 <= a < b < |places| :: places[a] != places[b] {
      AllDifferent(places);
      SubsetIsSmaller(Visited(places), NumbersBelow(n));
    }
  }

  function Visited(places: seq<nat>): set<nat> {
    set p | p in places
  }

  lemma {:induction false} AllDifferent(places: seq<nat>)
    requires forall a, b | 0 <= a < b < |places| :: places[a] != places[b]
    ensures |Visited(places)| == |places|
  {
    if places != [] {
      var init, last := places[..|places| - 1], places[|places| - 1];
      AllDifferent(init);
      assert Visited(places) == Visited(init) + {last};
      assert last !in init;
    }
  }

  function NumbersBelow(n: nat): (r: set<nat>)
    ensures |r| == n && forall p: nat :: p in r <==> p < n
  {
    if n == 0 then {} else NumbersBelow(n - 1) + {n - 1}
  }

  lemma {:induction false} SubsetIsSmaller<T>(a: set<T>, b: set<T>)
    requires a <= b
    ensures |a| <= |b|
  {
    if a != {} {
      var x :| x in a;
      SubsetIsSmaller(a - {x}, b - {x});
    }
  }

  /** A loop that is not done after one turn per byte and one more has come to some place twice. */
  lemma LongRunRepeats(s: seq<byte>) returns (a: nat, b: nat)
    requires At(s, |s| + 1).Some?
    ensures Repeats(s, a, b) && b <= |s|
  {
    hide At;
    forall k: nat | k <= |s| ensures At(s, k).Some? && At(s, k).value < |s| {
      GoingBefore(s, k, |s| + 1);
      GoingBefore(s, k + 1, |s| + 1);
      GoingIsInside(s, k);
    }
    var places: seq<nat> := seq(|s| + 1, k requires 0 <= k <= |s| => At(s, k).value);
    Pigeonhole(places, |s|);
    a, b :| 0 <= a < b < |places| && places[a] == places[b];
  }

  lemma GoingIsInside(s: seq<byte>, k: nat)
    requires At(s, k).Some? && At(s, k + 1).Some?
    ensures At(s, k).value < |s|
  {
    hide ReadLine, Turn, Bound;
    var p := Turns(s, START, k);
    TurnIsAtPlace(s, p.i, p.out);
  }

  /** The loop stops if and only if it does so within one turn per byte and one more; and it
      goes on for ever if and only if it comes to some place twice. */
  lemma StopsIff(s: seq<byte>)
    ensures (exists n: nat :: At(s, n) == None) <==> At(s, |s| + 1) == None
    ensures (forall n: nat :: At(s, n).Some?) <==> exists a: nat, b: nat | b <= |s| :: Repeats(s, a, b)
  {
    hide At, Repeats;
    if At(s, |s| + 1).Some? {
      var a, b := LongRunRepeats(s);
      forall n: nat ensures At(s, n).Some? {
        RepeatGoesOn(s, a, b, n);
      }
    }
    if a: nat, b: nat :| b <= |s| && Repeats(s, a, b) {
      forall n: nat ensures At(s, n).Some? {
        RepeatGoesOn(s, a, b, n);
      }
    }
  }

  /** What is known after `n` turns. */
  lemma StopDecides(s: seq<byte>, n: nat)
    ensures At(s, n) == None && Decode(s) != NegativeSize ==> Turns(s, START, n) == Stopped(Decode(s))
    ensures n > |s| && At(s, n).Some? ==> Decode(s) == NegativeSize && forall m: nat :: At(s, m).Some?
  {
    hide Turn, Turns, DecodeFrom;
    StopsIff(s);
    if Decode(s) != NegativeSize {
      DecoderStops(s);
      if At(s, n) == None {
        StoppedStays(s, START, Min(n, |s| + 1), if n <= |s| + 1 then |s| + 1 else n);
      }
      if n > |s| {
        StoppedStays(s, START, |s| + 1, n);
      }
    }
    if n > |s| && At(s, n).Some? {
      GoingBefore(s, |s| + 1, n);
    }
  }

  // ---- payloads without negative sizes ----

  lemma SliceForward(s: seq<byte>, a: nat, b: nat)
    requires a <= b
    ensures PythonSlice(s, a, b) == Slice(s, a, b)
  {
  }

  lemma NegativeStays(a: seq<byte>, d: Decoded)
    ensures Prepend(a, d) == NegativeSize <==> d == NegativeSize
  {
  }

  lemma ChunkTurn(s: seq<byte>, i: nat, out: seq<byte>, j: nat, size: nat)
    requires i < |s| && ReadLine(s, i) == Line(j, Some(size)) && size > 0
    ensures var data := Slice(s, j + 2, j + 2 + size);
            && TurnAt(s, i, out) == Going(j + 2 + size + 2, out + data)
            && DecodeFrom(s, i) == Prepend(data, DecodeFrom(s, j + 2 + size + 2))
  {
    hide ReadLine, Slice, PythonSlice, Prepend;
    SliceForward(s, j + 2, j + 2 + size);
  }

  /** A line that says a size above zero. */
  predicate StartsChunk(s: seq<byte>, i: nat)
    requires i <= |s|
  {
    var line := ReadLine(s, i);
    line.Line? && line.size.Some? && line.size.value > 0
  }

  lemma LastTurn(s: seq<byte>, i: nat, out: seq<byte>)
    requires i >= |s| || !StartsChunk(s, i)
    requires DecodeFrom(s, i) != NegativeSize
    ensures TurnAt(s, Min(i, |s|), out) == Stopped(Prepend(out, DecodeFrom(s, i)))
  {
    hide ReadLine, Slice, PythonSlice;
    assert out + [] == out;
  }

  /** While no size is negative each turn takes one chunk off. */
  lemma TurnForward(s: seq<byte>, i: nat, out: seq<byte>)
    requires DecodeFrom(s, i) != NegativeSize
    ensures var next := Turn(s, Going(i, out));
            if next.Stopped? then next.result == Prepend(out, DecodeFrom(s, i))
            else next.i > i && i < |s| && DecodeFrom(s, next.i) != NegativeSize
                 && Prepend(next.out, DecodeFrom(s, next.i)) == Prepend(out, DecodeFrom(s, i))
  {
    hide ReadLine, Slice, PythonSlice, Turn, DecodeFrom, TurnAt, Prepend;
    TurnIsAtPlace(s, i, out);
    if i >= |s| || !StartsChunk(s, i) {
      LastTurn(s, i, out);
    } else {
      var line := ReadLine(s, i);
      var from, to := line.end + 2, line.end + 2 + line.size.value;
      ChunkTurn(s, i, out, line.end, line.size.value);
      PrependTwice(out, Slice(s, from, to), DecodeFrom(s, to + 2));
      NegativeStays(Slice(s, from, to), DecodeFrom(s, to + 2));
    }
  }

  /** After `n` turns the loop has stopped with what `Decode` says, or it has moved on by at
      least `n` and what it has and what remains make up what `Decode` says. */
  lemma {:induction false} LoopDecodes(s: seq<byte>, n: nat)
    requires Decode(s) != NegativeSize
    ensures var p := Turns(s, START, n);
            if p.Stopped? then p.result == Decode(s)
            else n <= p.i && n <= |s| && DecodeFrom(s, p.i) != NegativeSize
                 && Prepend(p.out, DecodeFrom(s, p.i)) == Decode(s)
  {
    hide Turn, DecodeFrom;
    if n == 0 {
      PrependNothing(Decode(s));
    } else {
      LoopDecodes(s, n - 1);
      var p := Turns(s, START, n - 1);
      if p.Going? {
        TurnForward(s, p.i, p.out);
      } else {
        StoppedStays(s, START, n - 1, n);
      }
    }
  }

  lemma PrependNothing(d: Decoded)
    ensures Prepend([], d) == d
  {
    if d.Body? {
      assert [] + d.bytes == d.bytes;
    }
  }

  /** The decoder stops on every payload in which it meets no negative size, with what `Decode`
      says. */
  lemma DecoderStops(payload: seq<byte>)
    requires Decode(payload) != NegativeSize
    ensures Turns(payload, START, |payload| + 1) == Stopped(Decode(payload))
  {
    LoopDecodes(payload, |payload| + 1);
  }

  // ---- payloads with negative sizes ----

  lemma {:induction false} TrimLeftShrinks(s: seq<byte>)
    ensures |TrimLeft(s)| <= |s|
  {
    if s != [] && IsBlank(s[0]) {
      TrimLeftShrinks(s[1..]);
    }
  }

  lemma {:induction false} TrimRightShrinks(s: seq<byte>)
    ensures |TrimRight(s)| <= |s|
  {
    if s != [] && IsBlank(s[|s| - 1]) {
      TrimRightShrinks(s[..|s| - 1]);
    }
  }

  lemma {:induction false} BeforeSemicolonShrinks(s: seq<byte>)
    ensures |BeforeSemicolon(s)| <= |s|
  {
    if s != [] && s[0] != SEMICOLON {
      BeforeSemicolonShrinks(s[1..]);
    }
  }

  /** A negative number needs a sign and a digit. */
  lemma NegativeIsLong(s: seq<byte>)
    requires ParseSize(s).Some? && ParseSize(s).value < 0
    ensures |s| >= 2
  {
    hide TrimLeft, TrimRight, DigitsValue;
    TrimLeftShrinks(s);
    TrimRightShrinks(TrimLeft(s));
  }

  /** No size that the loop meets is below -5. */
  ghost predicate SmallSteps(s: seq<byte>) {
    forall n: nat :: At(s, n).Some? ==> SmallStepAt(s, At(s, n).value)
  }

  predicate SmallStepAt(s: seq<byte>, place: nat)
    requires place <= |s|
  {
    var line := ReadLine(s, place);
    line.Line? && line.size.Some? ==> line.size.value >= -5
  }

  /** A size of -5 or more takes the loop forward: its text and its line end make up for it. */
  lemma SmallStepForward(s: seq<byte>, place: nat, out: seq<byte>)
    requires place <= |s| && SmallStepAt(s, place) && TurnAt(s, place, out).Going?
    ensures TurnAt(s, place, out).i > place
  {
    hide ParseSize, BeforeSemicolon, FindCrlf;
    var line := ReadLine(s, place);
    if line.size.value < 0 {
      var text := s[place..line.end];
      NegativeIsLong(BeforeSemicolon(text));
      BeforeSemicolonShrinks(text);
    }
  }

  lemma SmallStepMovesOn(s: seq<byte>, n: nat)
    requires At(s, n).Some? && At(s, n + 1).Some? && SmallStepAt(s, At(s, n).value)
    ensures At(s, n + 1).value > At(s, n).value
  {
    hide ReadLine, Turn, SmallStepAt;
    var p := Turns(s, START, n);
    GoingIsInside(s, n);
    TurnIsAtPlace(s, p.i, p.out);
    SmallStepForward(s, At(s, n).value, p.out);
  }

  lemma {:induction false} SmallStepsMoveOn(s: seq<byte>, n: nat)
    requires SmallSteps(s) && At(s, n).Some?
    ensures At(s, n).value >= n
  {
    hide At, SmallStepAt;
    if n > 0 {
      GoingBefore(s, n - 1, n);
      SmallStepsMoveOn(s, n - 1);
      SmallStepMovesOn(s, n - 1);
    }
  }

  /** Negative sizes down to -5 do not keep the loop from stopping; -6 may, as below. */
  lemma SmallStepsStop(s: seq<byte>)
    requires SmallSteps(s)
    ensures At(s, |s| + 1) == None
  {
    hide At, SmallSteps;
    if At(s, |s| + 1).Some? {
      SmallStepsMoveOn(s, |s| + 1);
      assert false;
    }
  }

  /** "-6" CR LF: the size line takes the loop back to where it was. */
  const STEPS_BACK: seq<byte> := [MINUS, 54, CR, LF]

  /** A negative size may keep the loop going for ever: no number of turns stops it here. */
  lemma {:induction false} NegativeSizeMayNeverStop(n: nat)
    ensures Turns(STEPS_BACK, Going(0, []), n) == Going(0, [])
    ensures Decode(STEPS_BACK) == NegativeSize
  {
    SizeOfStepsBack();
    hide Turn, Decode;
    if n > 0 {
      NegativeSizeMayNeverStop(n - 1);
    }
  }

  lemma SizeOfStepsBack()
    ensures Turn(STEPS_BACK, Going(0, [])) == Going(0, [])
    ensures Decode(STEPS_BACK) == NegativeSize
  {
    var s := STEPS_BACK;
    FindUnique(s, 0, 2);
    assert PythonSlice(s, 0, 2) == [MINUS, 54] && s[0..2] == [MINUS, 54];
    assert BeforeSemicolon([MINUS, 54]) == [MINUS, 54] by {
      assert [MINUS, 54][1..] == [54] && [54][1..] == [];
    }
    assert [MINUS, 54][1..] == [54];
    assert DigitsValue([54]) == 6 by {
      assert [54][..0] == [];
    }
    assert ParseSize([MINUS, 54]) == Some(-6);
    assert PythonSlice(s, 4, -2) == [];
  }
}
