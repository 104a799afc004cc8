/** `generate_envelopes` of `scripts/telemetry/telemetry_simulator.py`: which device sends
    which message, and under which idempotency key. Payloads and time stamps are not
    modelled; what the size limit makes of an envelope is a parameter. */
module Envelopes {
  import opened Arithmetic
  import opened Text

  datatype Config = Config(deviceCount: int, messageRate: int, deviceTypes: seq<string>, regionIds: seq<string>) {
    /** The part of `validate_config` that the generator relies on. */
    predicate Valid() {
      deviceCount > 0 && messageRate > 0 && deviceTypes != [] && regionIds != []
    }
  }

  datatype Envelope = Envelope(deviceId: string, deviceType: string, regionId: string, idempotencyKey: string)

  datatype Generated = Envelopes(envelopes: seq<Envelope>) | SchemaError(sequence: nat)

  /** `text.replace("-", "_")` */
  function Underscored(s: string): string {
    seq(|s|, i requires 0 <= i < |s| => if s[i] == '-' then '_' else s[i])
  }

  /** `{n:05d}` */
  function Pad5(n: nat): (s: string)
    ensures s != "" && Digits(s)
  {
    Padded(5, Decimal(n))
  }

  function Padded(width: nat, digits: string): (s: string)
    requires digits != "" && Digits(digits)
    ensures s != "" && Digits(s)
    decreases width - |digits|
  {
    if |digits| < width then Padded(width, "0" + digits) else digits
  }

  function DeviceId(c: Config, index: nat): string
    requires c.Valid()
  {
    c.deviceTypes[index % |c.deviceTypes|] + "-" + Underscored(c.regionIds[index % |c.regionIds|]) + "-" + Pad5(index)
  }

  /** The message with this sequence number. */
  function EnvelopeAt(c: Config, sequence: nat): Envelope
    requires c.Valid()
  {
    var index := sequence % c.deviceCount;
    var id := DeviceId(c, index);
    Envelope(id, c.deviceTypes[index % |c.deviceTypes|], c.regionIds[index % |c.regionIds|],
             id + ":" + Decimal(sequence))
  }

  /** `validate_common_envelope`: the text fields are non-empty and the encoding is not too long. */
  predicate Acceptable(e: Envelope, fits: Envelope -> bool) {
    e.deviceId != "" && e.deviceType != "" && e.regionId != "" && e.idempotencyKey != "" && fits(e)
  }

  /** `generate_envelopes` on a validated configuration: all the messages in order, or the
      first one that is not acceptable. */
  method GenerateEnvelopes(c: Config, fits: Envelope -> bool) returns (r: Generated)
    requires c.Valid()
    ensures match r
            case Envelopes(es) =>
              && |es| == c.messageRate
              && forall k: nat | k < |es| :: es[k] == EnvelopeAt(c, k) && Acceptable(es[k], fits)
            case SchemaError(n) =>
              && n < c.messageRate && !Acceptable(EnvelopeAt(c, n), fits)
              && forall k: nat | k < n :: Acceptable(EnvelopeAt(c, k), fits)
  {
    hide EnvelopeAt, Acceptable;
    var envelopes: seq<Envelope> := [];
    for sequence := 0 to c.messageRate
      invariant |envelopes| == sequence
      invariant forall k: nat | k < sequence :: envelopes[k] == EnvelopeAt(c, k) && Acceptable(envelopes[k], fits)
    {
      var e := EnvelopeAt(c, sequence);
      if !Acceptable(e, fits) {
        return SchemaError(sequence);
      }
      envelopes := envelopes + [e];
    }
    return Envelopes(envelopes);
  }

  // ---- what the names are ----

  lemma {:induction false} PaddedIs(width: nat, digits: string) returns (zeros: string)
    requires digits != "" && Digits(digits)
    ensures Padded(width, digits) == zeros + digits && forall i | 0 <= i < |zeros| :: zeros[i] == '0'
    ensures |zeros| == if |digits| < width then width - |digits| else 0
    decreases width - |digits|
  {
    zeros := "";
    if |digits| < width {
      var more := PaddedIs(width, "0" + digits);
      zeros := more + "0";
      assert zeros + digits == more + ("0" + digits);
    } else {
      assert zeros + digits == digits;
    }
  }

  /** A message is from the device whose turn it is. Its name is made of its type, its region
      with underscores for dashes, and its number in five digits or more; the key is the name
      and the number of the message. */
  lemma EnvelopeIs(c: Config, sequence: nat) returns (region: string, zeros: string)
    requires c.Valid()
    ensures var index := sequence % c.deviceCount;
            var (e, t, r) := (EnvelopeAt(c, sequence), c.deviceTypes[index % |c.deviceTypes|],
                              c.regionIds[index % |c.regionIds|]);
            && |region| == |r| && (forall i | 0 <= i < |r| :: region[i] == if r[i] == '-' then '_' else r[i])
            && (forall i | 0 <= i < |zeros| :: zeros[i] == '0')
            && |zeros| == (if |Decimal(index)| < 5 then 5 - |Decimal(index)| else 0)
            && e.deviceType == t && e.regionId == r
            && e.deviceId == t + "-" + region + "-" + (zeros + Decimal(index))
            && e.idempotencyKey == e.deviceId + ":" + Decimal(sequence)
  {
    var index := sequence % c.deviceCount;
    region := Underscored(c.regionIds[index % |c.regionIds|]);
    zeros := PaddedIs(5, Decimal(index));
  }

  /** Names and keys are never empty, so a message is acceptable exactly if its type and its region
      have a name and its encoding fits. */
  lemma AcceptableIff(c: Config, sequence: nat, fits: Envelope -> bool)
    requires c.Valid()
    ensures var (e, index) := (EnvelopeAt(c, sequence), sequence % c.deviceCount);
            Acceptable(e, fits) <==>
              c.deviceTypes[index % |c.deviceTypes|] != "" && c.regionIds[index % |c.regionIds|] != "" && fits(e)
  {
    var region, zeros := EnvelopeIs(c, sequence);
  }

  // ---- names can be read back ----

  lemma NoSeparatorBehind(a: string, separator: char, x: string)
    requires Digits(x) && !('0' <= separator <= '9')
    ensures forall k | |a| < k < |a + [separator] + x| :: (a + [separator] + x)[k] != separator
  {
    assert forall k | |a| < k < |a + [separator] + x| :: (a + [separator] + x)[k] == x[k - |a| - 1];
  }

  /** What follows the last separator of a string is determined by the string. */
  lemma SuffixUnique(a: string, b: string, separator: char, x: string, y: string)
    requires Digits(x) && Digits(y) && !('0' <= separator <= '9')
    requires a + [separator] + x == b + [separator] + y
    ensures a == b && x == y
  {
    var s, t := a + [separator] + x, b + [separator] + y;
    assert s[|a|] == separator && t[|b|] == separator;
    NoSeparatorBehind(a, separator, x);
    NoSeparatorBehind(b, separator, y);
    assert |a| == |b|;
    assert a == s[..|a|] && b == t[..|b|];
    assert x == s[|a| + 1..] && y == t[|b| + 1..];
  }

  lemma {:induction false} LeadingZero(digits: string)
    requires Digits(digits)
    ensures DecimalValue("0" + digits) == DecimalValue(digits)
  {
    var s := "0" + digits;
    if digits == "" {
      assert s[..|s| - 1] == "";
    } else {
      var init := digits[..|digits| - 1];
      assert s[..|s| - 1] == "0" + init;
      LeadingZero(init);
    }
  }

  lemma {:induction false} PaddedReads(width: nat, digits: string)
    requires digits != "" && Digits(digits)
    ensures DecimalValue(Padded(width, digits)) == DecimalValue(digits)
    decreases width - |digits|
  {
    if |digits| < width {
      PaddedReads(width, "0" + digits);
      LeadingZero(digits);
    }
  }

  /** A device name tells the number of the device, whatever its type and region are called. */
  lemma DeviceIdTellsIndex(c: Config, i: nat, j: nat)
    requires c.Valid() && DeviceId(c, i) == DeviceId(c, j)
    ensures i == j
  {
    var a := c.deviceTypes[i % |c.deviceTypes|] + "-" + Underscored(c.regionIds[i % |c.regionIds|]);
    var b := c.deviceTypes[j % |c.deviceTypes|] + "-" + Underscored(c.regionIds[j % |c.regionIds|]);
    hide Underscored, Pad5;
    SuffixUnique(a, b, '-', Pad5(i), Pad5(j));
    Pad5Injective(i, j);
  }

  lemma Pad5Injective(i: nat, j: nat)
    requires Pad5(i) == Pad5(j)
    ensures i == j
  {
    PaddedReads(5, Decimal(i));
    PaddedReads(5, Decimal(j));
    DecimalReads(i);
    DecimalReads(j);
  }

  /** No two messages of a run share an idempotency key. */
  lemma KeysAreDistinct(c: Config, m: nat, n: nat)
    requires c.Valid() && EnvelopeAt(c, m).idempotencyKey == EnvelopeAt(c, n).idempotencyKey
    ensures m == n
  {
    hide DeviceId;
    SuffixUnique(DeviceId(c, m % c.deviceCount), DeviceId(c, n % c.deviceCount), ':', Decimal(m), Decimal(n));
    DecimalInjective(m, n);
  }

  // ---- the load on the devices ----

  /** How many of the first `n` messages come from this device. */
  function SentBy(c: Config, deviceId: string, n: nat): nat
    requires c.Valid()
  {
    if n == 0 then 0
    else SentBy(c, deviceId, n - 1) + if EnvelopeAt(c, n - 1).deviceId == deviceId then 1 else 0
  }

  /** The messages are dealt out in turn: after any number of them, each device has sent its
      full rounds and those in front one more. */
  lemma {:induction false} SentInTurn(c: Config, index: nat, n: nat)
    requires c.Valid() && index < c.deviceCount
    ensures SentBy(c, DeviceId(c, index), n) == n / c.deviceCount + if index < n % c.deviceCount then 1 else 0
  {
    if n != 0 {
      SentInTurn(c, index, n - 1);
      NextRound(n - 1, c.deviceCount);
      SenderOf(c, n - 1, index);
    }
  }

  lemma SenderOf(c: Config, sequence: nat, index: nat)
    requires c.Valid() && index < c.deviceCount
    ensures EnvelopeAt(c, sequence).deviceId == DeviceId(c, index) <==> sequence % c.deviceCount == index
  {
    hide DeviceId;
    if DeviceId(c, sequence % c.deviceCount) == DeviceId(c, index) {
      DeviceIdTellsIndex(c, sequence % c.deviceCount, index);
    }
  }

  /** After any number of messages, two devices differ by at most one message. */
  lemma EvenLoad(c: Config, i: nat, j: nat, n: nat)
    requires c.Valid() && i < c.deviceCount && j < c.deviceCount
    ensures SentBy(c, DeviceId(c, i), n) <= SentBy(c, DeviceId(c, j), n) + 1
  {
    SentInTurn(c, i, n);
    SentInTurn(c, j, n);
  }
}
