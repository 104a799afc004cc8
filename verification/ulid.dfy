/** `ulid` of `scripts/services/events-ingest.py`: 48 bits of time and 80 random bits in
    Crockford's base 32 (Encoding and Sorting sections of the ULID specification). */
module Ulid {
  import opened Arithmetic
  import opened Text

  const ALPHABET: string := "0123456789ABCDEFGHJKMNPQRSTVWXYZ"

  predicate IsLetter(c: char) {
    c in ALPHABET
  }

  /** The character for a five-bit number. */
  function Letter(d: nat): (c: char)
    requires d < 32
    ensures IsLetter(c)
  {
    ALPHABET[d]
  }

  /** `32 ** n` */
  function Pow32(n: nat): (r: nat)
    ensures r > 0
  {
    if n == 0 then 1 else 32 * Pow32(n - 1)
  }

  /** The `n` last base-32 digits of `v`, most significant first. */
  function Digits32(v: nat, n: nat): (s: string)
    ensures |s| == n
    ensures forall i | 0 <= i < n :: IsLetter(s[i])
  {
    if n == 0 then "" else Digits32(v / 32, n - 1) + [Letter(v % 32)]
  }

  /** The number a string of alphabet characters stands for. */
  function Value(s: string): nat {
    if s == "" then 0 else 32 * Value(s[..|s| - 1]) + IndexOf(ALPHABET, s[|s| - 1])
  }

  /** `int.from_bytes(bytes, "big")` */
  function BigEndian(bytes: seq<byte>): nat {
    if bytes == [] then 0 else 256 * BigEndian(bytes[..|bytes| - 1]) + bytes[|bytes| - 1]
  }

  /** Position of the first difference decides, as when Python compares strings. */
  predicate Below(s: string, t: string)
    requires |s| == |t|
  {
    s != "" && (s[0] < t[0] || (s[0] == t[0] && Below(s[1..], t[1..])))
  }

  /** `v >> bits` */
  function ShiftRight(v: nat, bits: nat): nat {
    if bits == 0 then v else ShiftRight(v / 2, bits - 1)
  }

  /** The ULID of a millisecond time and an 80-bit number. */
  function UlidOf(timestamp: nat, random: nat): (s: string)
    ensures |s| == 26
    ensures forall i | 0 <= i < 26 :: IsLetter(s[i])
  {
    Digits32(timestamp, 10) + Digits32(random, 16)
  }

  /** `ulid`, given the clock and the random bytes. */
  method Generate(timestamp: nat, randomBytes: seq<byte>) returns (s: string)
    requires |randomBytes| == 10
    ensures s == UlidOf(timestamp, BigEndian(randomBytes))
  {
    var time := EncodeDigits(timestamp, 10);
    var random := EncodeDigits(BigEndian(randomBytes), 16);
    s := time + random;
  }

  /** The encoding loop: one character for each five bits, from the highest down. */
  method EncodeDigits(v: nat, n: nat) returns (s: string)
    ensures s == Digits32(v, n)
  {
    hide Letter, IsLetter;
    s := "";
    for i := 0 to n
      invariant s == Digits32(ShiftRight(v, (n - i) * 5), i)
    {
      var shift := (n - i - 1) * 5;
      ShiftFive(v, shift);
      s := s + [Letter(ShiftRight(v, shift) % 32)];
    }
  }

  lemma {:induction false} ShiftOne(v: nat, bits: nat)
    ensures ShiftRight(v, bits + 1) == ShiftRight(v, bits) / 2
    decreases bits
  {
    if bits > 0 {
      ShiftOne(v / 2, bits - 1);
    }
  }

  lemma ShiftFive(v: nat, bits: nat)
    ensures ShiftRight(v, bits + 5) == ShiftRight(v, bits) / 32
  {
    ShiftOne(v, bits);
    ShiftOne(v, bits + 1);
    ShiftOne(v, bits + 2);
    ShiftOne(v, bits + 3);
    ShiftOne(v, bits + 4);
  }

  lemma {:induction false} Pow2Of5(k: nat)
    ensures Pow2(k * 5) == Pow32(k)
  {
    if k > 0 {
      Pow2Of5(k - 1);
      Pow2More(k * 5 - 5);
    }
  }

  lemma ShiftFirst(v: nat, bits: nat)
    ensures ShiftRight(v, bits + 5) == ShiftRight(v / 32, bits)
  {
    assert ShiftRight(v, bits + 5) == ShiftRight(v / 2, bits + 4);
    assert ShiftRight(v / 2, bits + 4) == ShiftRight(v / 4, bits + 3);
    assert ShiftRight(v / 4, bits + 3) == ShiftRight(v / 8, bits + 2);
    assert ShiftRight(v / 8, bits + 2) == ShiftRight(v / 16, bits + 1);
  }

  /** Each character is the letter of Crockford's alphabet for five bits of the number, the
      highest ones first. */
  lemma {:induction false} CharacterAt(v: nat, n: nat, i: nat)
    requires i < n
    ensures Digits32(v, n)[i] == "0123456789ABCDEFGHJKMNPQRSTVWXYZ"[ShiftRight(v, (n - 1 - i) * 5) % 32]
  {
    hide IsLetter, Letter, ShiftRight;
    if i < n - 1 {
      CharacterAt(v / 32, n - 1, i);
      ShiftFirst(v, (n - 2 - i) * 5);
    } else {
      NoShift(v);
      LetterIs(v % 32);
    }
  }

  lemma NoShift(v: nat)
    ensures ShiftRight(v, 0) == v
  {
  }

  lemma LetterIs(d: nat)
    requires d < 32
    ensures Letter(d) == "0123456789ABCDEFGHJKMNPQRSTVWXYZ"[d]
  {
  }

  /** A byte in front counts for a power of 256. */
  lemma {:induction false} BytesInFront(b: byte, bytes: seq<byte>)
    ensures BigEndian([b] + bytes) == b * Pow2(8 * |bytes|) + BigEndian(bytes)
  {
    if bytes == [] {
      assert ([b] + bytes)[..0] == [];
    } else {
      var n := |bytes| - 1;
      assert ([b] + bytes)[..n + 1] == [b] + bytes[..n];
      BytesInFront(b, bytes[..n]);
      Pow2More(8 * n);
      assert 256 * (b * Pow2(8 * n)) == b * (256 * Pow2(8 * n));
    }
  }

  // ---- decoding ----

  lemma SymbolOfDigit(d: nat)
    requires d < 32
    ensures IndexOf(ALPHABET, Letter(d)) == d
  {
    var n := IndexOf(ALPHABET, Letter(d));
    if n != d {
      AlphabetIsSorted(if n < d then n else d, if n < d then d else n);
    }
  }

  lemma NextLetter(i: nat)
    requires i < 31
    ensures ALPHABET[i] < ALPHABET[i + 1]
  {
  }

  lemma {:induction false} AlphabetIsSorted(i: nat, j: nat)
    requires i < j < 32
    ensures Letter(i) < Letter(j)
    decreases j
  {
    hide IsLetter;
    NextLetter(j - 1);
    if i < j - 1 {
      AlphabetIsSorted(i, j - 1);
    }
  }

  lemma {:induction false} DigitsBelowPower(v: nat, n: nat)
    ensures Value(Digits32(v, n)) < Pow32(n)
    ensures v < Pow32(n) ==> Value(Digits32(v, n)) == v
  {
    hide Letter, IsLetter, IndexOf;
    if n > 0 {
      var s := Digits32(v, n);
      assert s[..n - 1] == Digits32(v / 32, n - 1);
      DigitsBelowPower(v / 32, n - 1);
      SymbolOfDigit(v % 32);
    }
  }

  /** The text of `n` digits reads back as the number exactly when the number fits. */
  lemma DecodesIffFits(v: nat, n: nat)
    ensures Value(Digits32(v, n)) == v <==> v < Pow32(n)
  {
    DigitsBelowPower(v, n);
  }

  lemma {:induction false} BigEndianBelow(bytes: seq<byte>, k: nat)
    requires |bytes| == k
    ensures BigEndian(bytes) < Pow2(8 * k)
  {
    if k > 0 {
      BigEndianBelow(bytes[..k - 1], k - 1);
      Pow2More(8 * k - 8);
    }
  }

  /** Ten random bytes always fit the sixteen characters, and a time below 2^48 milliseconds
      (indeed below 2^50) fits the ten: both parts read back. */
  lemma UlidReadsBack(timestamp: nat, randomBytes: seq<byte>)
    requires |randomBytes| == 10
    ensures var s := UlidOf(timestamp, BigEndian(randomBytes));
            && Value(s[10..]) == BigEndian(randomBytes)
            && (Value(s[..10]) == timestamp <==> timestamp < Pow2(50))
    ensures Pow2(48) < Pow2(50)
  {
    hide Letter, IsLetter, Digits32, Value;
    var s := UlidOf(timestamp, BigEndian(randomBytes));
    assert s[..10] == Digits32(timestamp, 10) && s[10..] == Digits32(BigEndian(randomBytes), 16);
    BigEndianBelow(randomBytes, 10);
    Pow2Of5(16);
    Pow2Of5(10);
    DecodesIffFits(timestamp, 10);
    DecodesIffFits(BigEndian(randomBytes), 16);
    Pow2More(48);
  }

  // ---- sorting ----

  lemma {:induction false} BelowAppend(s: string, t: string, a: string, b: string)
    requires |s| == |t| && |a| == |b|
    ensures Below(s + a, t + b) <==> Below(s, t) || (s == t && Below(a, b))
  {
    if s == "" {
      assert s + a == a && t + b == b;
    } else {
      assert (s + a)[1..] == s[1..] + a && (t + b)[1..] == t[1..] + b;
      BelowAppend(s[1..], t[1..], a, b);
      assert s == [s[0]] + s[1..] && t == [t[0]] + t[1..];
    }
  }

  lemma {:induction false} BelowIsStrict(s: string, t: string)
    requires |s| == |t|
    ensures !(Below(s, t) && Below(t, s)) && !Below(s, s)
  {
    if s != "" {
      BelowIsStrict(s[1..], t[1..]);
    }
  }

  lemma {:induction false} DigitsSort(u: nat, v: nat, n: nat)
    requires u < v < Pow32(n)
    ensures Below(Digits32(u, n), Digits32(v, n))
  {
    hide Letter, IsLetter;
    if n > 0 {
      var a, b := [Letter(u % 32)], [Letter(v % 32)];
      assert Below(a, b) <==> Letter(u % 32) < Letter(v % 32);
      BelowAppend(Digits32(u / 32, n - 1), Digits32(v / 32, n - 1), a, b);
      if u / 32 < v / 32 {
        DigitsSort(u / 32, v / 32, n - 1);
      } else {
        AlphabetIsSorted(u % 32, v % 32);
      }
    }
  }

  lemma DigitsSortIff(u: nat, v: nat, n: nat)
    requires u < Pow32(n) && v < Pow32(n)
    ensures Below(Digits32(u, n), Digits32(v, n)) <==> u < v
    ensures Digits32(u, n) == Digits32(v, n) <==> u == v
  {
    DecodesIffFits(u, n);
    DecodesIffFits(v, n);
    BelowIsStrict(Digits32(u, n), Digits32(v, n));
    if u < v {
      DigitsSort(u, v, n);
    } else if v < u {
      DigitsSort(v, u, n);
    }
  }

  /** ULIDs sort as their times do, and by the random part within one millisecond. */
  lemma UlidsSortByTime(t1: nat, r1: seq<byte>, t2: nat, r2: seq<byte>)
    requires t1 < Pow2(50) && t2 < Pow2(50) && |r1| == |r2| == 10
    ensures Below(UlidOf(t1, BigEndian(r1)), UlidOf(t2, BigEndian(r2)))
       <==> t1 < t2 || (t1 == t2 && BigEndian(r1) < BigEndian(r2))
  {
    hide Letter, IsLetter, Digits32, Below;
    var n1, n2 := BigEndian(r1), BigEndian(r2);
    BigEndianBelow(r1, 10);
    BigEndianBelow(r2, 10);
    Pow2Of5(10);
    Pow2Of5(16);
    BelowAppend(Digits32(t1, 10), Digits32(t2, 10), Digits32(n1, 16), Digits32(n2, 16));
    DigitsSortIff(t1, t2, 10);
    DigitsSortIff(n1, n2, 16);
  }
}
