/** `run_simulation` and `RunMetrics.to_summary` of `scripts/telemetry/telemetry_simulator.py`:
    the counters of a run that stops at its first failure. */
module RunAccounting {
  import opened Telemetry

  /** What one live emission comes to. */
  datatype Emission = Sent(latency: real) | ConnectionFailure | ProtocolFailure

  /** What a run meets: which envelopes pass `validate_common_envelope`, over which protocols
      they go, and what becomes of envelope `k` on protocol `j`. */
  datatype World = World(valid: seq<bool>, protocols: seq<string>, live: bool, emit: (nat, nat) -> Emission)

  datatype Tally = Tally(
    planned: nat, accepted: nat, rejected: nat, connectionFailures: nat, schemaFailures: nat,
    protocolFailures: nat, latencies: seq<real>)

  /** How a run ends: after all envelopes, on a malformed one, or on a failed emission. */
  datatype Exit = Finished | SchemaAt(n: nat) | EmissionAt(n: nat, m: nat)

  // ---- the reference: where the run stops and what the counters then hold ----

  /** The first protocol from `j` on that fails to deliver envelope `k`. */
  function FirstFailing(w: World, k: nat, j: nat): (m: nat)
    requires j <= |w.protocols|
    ensures j <= m <= |w.protocols| && (m < |w.protocols| ==> !w.emit(k, m).Sent?)
    ensures forall i: nat | j <= i < m :: w.emit(k, i).Sent?
    decreases |w.protocols| - j
  {
    if j == |w.protocols| || !w.emit(k, j).Sent? then j else FirstFailing(w, k, j + 1)
  }

  ghost predicate Clear(w: World, k: nat)
    requires k < |w.valid|
  {
    w.valid[k] && (w.live ==> forall j: nat | j < |w.protocols| :: w.emit(k, j).Sent?)
  }

  /** The first trouble from envelope `k` on. */
  function ExitFrom(w: World, k: nat): (e: Exit)
    requires k <= |w.valid|
    ensures e.Finished? ==> forall i: nat | k <= i < |w.valid| :: Clear(w, i)
    ensures !e.Finished? ==> k <= e.n < |w.valid| && !Clear(w, e.n) && forall i: nat | k <= i < e.n :: Clear(w, i)
    ensures e.SchemaAt? ==> !w.valid[e.n]
    ensures e.EmissionAt? ==> w.live && w.valid[e.n] && e.m < |w.protocols| && e.m == FirstFailing(w, e.n, 0)
    decreases |w.valid| - k
  {
    if k == |w.valid| then Finished
    else if !w.valid[k] then SchemaAt(k)
    else if w.live && FirstFailing(w, k, 0) < |w.protocols| then EmissionAt(k, FirstFailing(w, k, 0))
    else ExitFrom(w, k + 1)
  }

  function ExitOf(w: World): Exit {
    ExitFrom(w, 0)
  }

  /** The latencies of the first `n` envelopes on protocol `j`. */
  function Latencies(w: World, j: nat, n: nat): (r: seq<real>)
    ensures |r| == n
  {
    if n == 0 then []
    else Latencies(w, j, n - 1) + [match w.emit(n - 1, j) case Sent(l) => l case _ => 0.0]
  }

  /** The counters of protocol `j` once `n` envelopes went through. */
  function Reached(w: World, j: nat, n: nat): Tally {
    if w.live then Tally(n, n, 0, 0, 0, 0, Latencies(w, j, n)) else Tally(n, 0, 0, 0, 0, 0, [])
  }

  /** The counters of protocol `j` at the end of the run. */
  function Final(w: World, exit: Exit, j: nat): Tally {
    match exit
    case Finished => Reached(w, j, |w.valid|)
    case SchemaAt(n) => Reached(w, j, n).(schemaFailures := 1)
    case EmissionAt(n, m) =>
      if j < m then Reached(w, j, n + 1)
      else if j > m then Reached(w, j, n)
      else
        var broken := w.emit(n, m).ConnectionFailure?;
        Reached(w, j, n).(planned := n + 1, connectionFailures := if broken then 1 else 0,
        protocolFailures := if broken then 0 else 1)
  }

  function Finals(w: World): (ts: seq<Tally>)
    ensures |ts| == |w.protocols|
  {
    seq(|w.protocols|, j requires 0 <= j < |w.protocols| => Final(w, ExitOf(w), j))
  }

  // ---- the run ----

  class ProtocolResult {
    const protocol: string
    var planned: nat
    var accepted: nat
    var rejected: nat
    var connectionFailures: nat
    var schemaFailures: nat
    var protocolFailures: nat
    var latencies: seq<real>

    constructor (protocol: string)
      ensures this.protocol == protocol && View() == Tally(0, 0, 0, 0, 0, 0, [])
    {
      this.protocol := protocol;
      planned, accepted, rejected := 0, 0, 0;
      connectionFailures, schemaFailures, protocolFailures := 0, 0, 0;
      latencies := [];
    }

    function View(): Tally
      reads this
    {
      Tally(planned, accepted, rejected, connectionFailures, schemaFailures, protocolFailures, latencies)
    }

    /** One envelope on this protocol. */
    method Attempt(w: World, n: nat, j: nat) returns (ok: bool)
      requires View() == Reached(w, j, n)
      modifies this
      ensures ok <==> !w.live || w.emit(n, j).Sent?
      ensures View() == if ok then Reached(w, j, n + 1) else Final(w, EmissionAt(n, j), j)
    {
      planned := planned + 1;
      if w.live {
        match w.emit(n, j)
        case ConnectionFailure =>
          connectionFailures := connectionFailures + 1;
          return false;
        case ProtocolFailure =>
          protocolFailures := protocolFailures + 1;
          return false;
        case Sent(latency) =>
          latencies := latencies + [latency];
          accepted := accepted + 1;
      }
      return true;
    }
  }

  ghost predicate Distinct(results: seq<ProtocolResult>) {
    forall i, j | 0 <= i < j < |results| :: results[i] != results[j]
  }

  /** `make_protocol_result` for every enabled protocol. */
  method MakeResults(w: World) returns (results: seq<ProtocolResult>)
    ensures fresh(results) && Distinct(results) && |results| == |w.protocols|
    ensures forall j: nat | j < |results| :: results[j].protocol == w.protocols[j] && results[j].View() == Reached(w, j, 0)
  {
    results := [];
    for j := 0 to |w.protocols|
      invariant |results| == j && fresh(results) && Distinct(results)
      invariant forall i: nat | i < j :: results[i].protocol == w.protocols[i] && results[i].View() == Reached(w, i, 0)
    {
      var r := new ProtocolResult(w.protocols[j]);
      results := results + [r];
    }
  }

  /** A malformed envelope is counted once on every protocol. */
  method RejectEverywhere(results: seq<ProtocolResult>)
    requires Distinct(results)
    modifies results
    ensures forall j: nat | j < |results| ::
              results[j].View() == old(results[j].View()).(schemaFailures := old(results[j].schemaFailures) + 1)
  {
    for j := 0 to |results|
      invariant forall i: nat | i < j ::
          results[i].View() == old(results[i].View()).(schemaFailures := old(results[i].schemaFailures) + 1)
      invariant forall i: nat | j <= i < |results| :: results[i].View() == old(results[i].View())
    {
      results[j].schemaFailures := results[j].schemaFailures + 1;
    }
  }

  /** One envelope over all protocols, up to the first failure. */
  method EmitEverywhere(w: World, n: nat, results: seq<ProtocolResult>) returns (ok: bool)
    requires Distinct(results) && |results| == |w.protocols|
    requires forall j: nat | j < |results| :: results[j].View() == Reached(w, j, n)
    modifies results
    ensures ok <==> !w.live || FirstFailing(w, n, 0) == |w.protocols|
    ensures ok ==> forall j: nat | j < |results| :: results[j].View() == Reached(w, j, n + 1)
    ensures !ok ==> forall j: nat | j < |results| ::
                      results[j].View() == Final(w, EmissionAt(n, FirstFailing(w, n, 0)), j)
  {
    for j := 0 to |results|
      invariant w.live ==> FirstFailing(w, n, 0) == FirstFailing(w, n, j)
      invariant forall i: nat | i < j :: results[i].View() == Reached(w, i, n + 1)
      invariant forall i: nat | j <= i < |results| :: results[i].View() == Reached(w, i, n)
    {
      ok := results[j].Attempt(w, n, j);
      if !ok {
        return;
      }
    }
    return true;
  }

  /** `run_simulation` on generated envelopes. The counters are reported on every exit. */
  method RunSimulation(w: World) returns (results: seq<ProtocolResult>, exit: Exit)
    ensures fresh(results) && |results| == |w.protocols|
    ensures exit == ExitOf(w)
    ensures forall j: nat | j < |results| :: results[j].protocol == w.protocols[j] && results[j].View() == Finals(w)[j]
  {
    results := MakeResults(w);
    for n := 0 to |w.valid|
      invariant ExitOf(w) == ExitFrom(w, n)
      invariant forall j: nat | j < |results| :: results[j].View() == Reached(w, j, n)
    {
      if !w.valid[n] {
        RejectEverywhere(results);
        return results, SchemaAt(n);
      }
      var ok := EmitEverywhere(w, n, results);
      if !ok {
        return results, EmissionAt(n, FirstFailing(w, n, 0));
      }
    }
    return results, Finished;
  }

  // ---- the summary ----

  const ZERO := Tally(0, 0, 0, 0, 0, 0, [])

  function Plus(a: Tally, b: Tally): Tally {
    Tally(a.planned + b.planned, a.accepted + b.accepted, a.rejected + b.rejected,
          a.connectionFailures + b.connectionFailures, a.schemaFailures + b.schemaFailures,
          a.protocolFailures + b.protocolFailures, a.latencies + b.latencies)
  }

  /** The field-wise sums of `to_summary`. */
  function Total(ts: seq<Tally>): Tally {
    if ts == [] then ZERO else Plus(Total(ts[..|ts| - 1]), ts[|ts| - 1])
  }

  function Errors(t: Tally): nat {
    t.rejected + t.connectionFailures + t.protocolFailures + t.schemaFailures
  }

  /** `round(x, 6)` */
  function Round6(x: real): real {
    RoundHalfEven(x * 1000000.0) as real / 1000000.0
  }

  datatype RunSummary = RunSummary(totals: Tally, percentiles: Summary, errorRate: real, exitStatus: nat)

  function ErrorRate(errors: nat, total: nat): real {
    if total == 0 then 0.0 else Round6(errors as real / total as real)
  }

  function ToSummary(ts: seq<Tally>): RunSummary {
    var t := Total(ts);
    RunSummary(t, PercentileSummary(t.latencies), ErrorRate(Errors(t), t.planned), if Errors(t) == 0 then 0 else 1)
  }

  // ---- what the counters say ----

  /** Messages planned on the first `i` protocols. */
  function PlannedOn(w: World, i: nat): nat {
    match ExitOf(w)
    case Finished => i * |w.valid|
    case SchemaAt(n) => i * n
    case EmissionAt(n, m) => i * n + if i <= m then i else m + 1
  }

  function ErrorsOn(w: World, i: nat): nat {
    match ExitOf(w)
    case Finished => 0
    case SchemaAt(_) => i
    case EmissionAt(_, m) => if i <= m then 0 else 1
  }

  lemma MulSucc(i: nat, n: nat)
    ensures (i + 1) * n == i * n + n
  {
  }

  lemma PlannedOnNext(w: World, i: nat)
    ensures PlannedOn(w, i + 1) == PlannedOn(w, i) + Final(w, ExitOf(w), i).planned
    ensures ErrorsOn(w, i + 1) == ErrorsOn(w, i) + Errors(Final(w, ExitOf(w), i))
  {
    hide ExitOf;
    var exit := ExitOf(w);
    MulSucc(i, if exit.Finished? then |w.valid| else exit.n);
  }

  /** Every planned message of a live run is accepted or failed on its protocol, and each
      accepted one has its latency. */
  lemma ProtocolBalances(w: World, j: nat)
    requires j < |w.protocols|
    ensures var t := Finals(w)[j];
            && (w.live ==> t.planned == t.accepted + t.connectionFailures + t.protocolFailures)
            && |t.latencies| == t.accepted
            && t.rejected == 0
            && (!w.live ==> t.accepted == 0 && t.connectionFailures + t.protocolFailures == 0)
  {
    hide ExitFrom;
  }

  lemma {:induction false} TotalOfFirst(w: World, i: nat)
    requires i <= |w.protocols|
    ensures var t := Total(Finals(w)[..i]);
            && t.planned == PlannedOn(w, i) && Errors(t) == ErrorsOn(w, i)
            && (w.live ==> t.planned == t.accepted + t.connectionFailures + t.protocolFailures)
            && |t.latencies| == t.accepted && t.rejected == 0
  {
    hide Finals, Errors, PlannedOn, ErrorsOn, Final, ExitOf;
    if i == 0 {
      NothingYet(w);
    } else {
      var before := Total(Finals(w)[..i - 1]);
      TotalOfFirst(w, i - 1);
      PlannedOnNext(w, i - 1);
      ProtocolBalances(w, i - 1);
      assert Finals(w)[..i][..i - 1] == Finals(w)[..i - 1];
      ErrorsAdd(before, Finals(w)[i - 1]);
      FinalsAt(w, i - 1);
    }
  }

  lemma NothingYet(w: World)
    ensures PlannedOn(w, 0) == 0 && ErrorsOn(w, 0) == 0 && Errors(ZERO) == 0
  {
  }

  lemma ErrorsAdd(a: Tally, b: Tally)
    ensures Errors(Plus(a, b)) == Errors(a) + Errors(b)
  {
  }

  lemma FinalsAt(w: World, j: nat)
    requires j < |w.protocols|
    ensures Finals(w)[j] == Final(w, ExitOf(w), j)
  {
  }

  /** The totals of a run: all messages on all protocols and no error; or the rounds before a
      malformed envelope and an error per protocol; or the messages up to and including the
      one failed emission. */
  lemma TotalsByExit(w: World)
    ensures var t, p := Total(Finals(w)), |w.protocols|;
            && (w.live ==> t.planned == t.accepted + t.connectionFailures + t.protocolFailures)
            && |t.latencies| == t.accepted
            && match ExitOf(w)
               case Finished => t.planned == p * |w.valid| && Errors(t) == 0
               case SchemaAt(n) => t.planned == p * n && Errors(t) == p
               case EmissionAt(n, m) => t.planned == p * n + m + 1 && Errors(t) == 1
  {
    hide Total, Errors;
    TotalOfFirst(w, |w.protocols|);
    assert Finals(w)[..|w.protocols|] == Finals(w);
  }

  /** The exit status is 0 exactly when every envelope was well-formed and, in a live run,
      delivered over every protocol. */
  lemma ExitStatusIff(w: World)
    requires w.protocols != []
    ensures ToSummary(Finals(w)).exitStatus == 0 <==> forall k: nat | k < |w.valid| :: Clear(w, k)
  {
    hide Total, Errors, Finals, Clear, PercentileSummary, ErrorRate;
    TotalsByExit(w);
  }

  /** What each counter of a protocol is, for each way a run ends: a malformed envelope counts
      on every protocol; a failed emission on its own, as a connection failure or else as a
      failure of the protocol. */
  lemma CountersByExit(w: World, j: nat)
    requires j < |w.protocols|
    ensures var (t, failures) := (Finals(w)[j], (c: nat, s: nat, p: nat) => Tally(0, 0, 0, c, s, p, []));
            var (n, planned) := match ExitOf(w)
                                case Finished => (|w.valid|, |w.valid|)
                                case SchemaAt(n) => (n, n)
                                case EmissionAt(n, m) => (if j < m then n + 1 else n, if j <= m then n + 1 else n);
            && t.planned == planned && t.accepted == (if w.live then n else 0)
            && Tally(0, 0, 0, t.connectionFailures, t.schemaFailures, t.protocolFailures, []) ==
               match ExitOf(w)
               case Finished => failures(0, 0, 0)
               case SchemaAt(_) => failures(0, 1, 0)
               case EmissionAt(k, m) =>
                 if j != m then failures(0, 0, 0)
                 else if w.emit(k, m).ConnectionFailure? then failures(1, 0, 0)
                 else failures(0, 0, 1)
  {
    hide ExitOf;
  }

  lemma {:induction false} LatencyAt(w: World, j: nat, n: nat, k: nat)
    requires k < n && w.emit(k, j).Sent?
    ensures Latencies(w, j, n)[k] == w.emit(k, j).latency
  {
    if k < n - 1 {
      LatencyAt(w, j, n - 1, k);
    }
  }

  /** The latencies of a protocol are those of its emissions, in order. */
  lemma LatenciesAreEmitted(w: World, j: nat, k: nat)
    requires j < |w.protocols| && k < |Finals(w)[j].latencies|
    ensures w.emit(k, j).Sent? && Finals(w)[j].latencies[k] == w.emit(k, j).latency
  {
    var exit := ExitOf(w);
    var n := |Finals(w)[j].latencies|;
    assert w.live;
    if exit.EmissionAt? && k == exit.n {
      assert j < exit.m;
    } else {
      assert k < |w.valid| && Clear(w, k);
    }
    LatencyAt(w, j, n, k);
  }

  function InARow(ts: seq<Tally>): seq<real> {
    if ts == [] then [] else ts[0].latencies + InARow(ts[1..])
  }

  lemma {:induction false} InARowSnoc(ts: seq<Tally>, t: Tally)
    ensures InARow(ts + [t]) == InARow(ts) + t.latencies
  {
    if ts == [] {
      assert (ts + [t])[1..] == [];
    } else {
      assert (ts + [t])[1..] == ts[1..] + [t];
      InARowSnoc(ts[1..], t);
    }
  }

  /** The percentiles are taken over the latencies of all protocols, one behind the other. */
  lemma {:induction false} AllLatencies(ts: seq<Tally>)
    ensures Total(ts).latencies == InARow(ts)
    ensures ToSummary(ts).percentiles == PercentileSummary(InARow(ts))
  {
    hide PercentileSummary;
    if ts != [] {
      AllLatencies(ts[..|ts| - 1]);
      InARowSnoc(ts[..|ts| - 1], ts[|ts| - 1]);
      assert ts[..|ts| - 1] + [ts[|ts| - 1]] == ts;
    }
  }

  /** The failures of one kind that the totals of the first protocols count. */
  lemma {:induction false} FailuresOfFirst(w: World, i: nat)
    requires i <= |w.protocols|
    ensures var (t, exit) := (Total(Finals(w)[..i]), ExitOf(w));
            && t.schemaFailures == (if exit.SchemaAt? then i else 0)
            && t.connectionFailures ==
               (if exit.EmissionAt? && exit.m < i && w.emit(exit.n, exit.m).ConnectionFailure? then 1 else 0)
            && t.protocolFailures ==
               (if exit.EmissionAt? && exit.m < i && !w.emit(exit.n, exit.m).ConnectionFailure? then 1 else 0)
  {
    hide Finals, Final, ExitOf;
    if i > 0 {
      FailuresOfFirst(w, i - 1);
      CountersByExit(w, i - 1);
      assert Finals(w)[..i][..i - 1] == Finals(w)[..i - 1];
    }
  }

  /** So a run that fails reports one kind of failure: one for each protocol if an envelope is
      malformed, and a single one if an emission fails. */
  lemma FailuresByExit(w: World)
    ensures var (t, exit) := (Total(Finals(w)), ExitOf(w));
            && t.schemaFailures == (if exit.SchemaAt? then |w.protocols| else 0)
            && (t.connectionFailures == 1 <==> exit.EmissionAt? && w.emit(exit.n, exit.m) == ConnectionFailure)
            && (t.protocolFailures == 1 <==> exit.EmissionAt? && w.emit(exit.n, exit.m) == ProtocolFailure)
            && t.connectionFailures + t.protocolFailures <= 1
  {
    hide Total, Finals, ExitFrom;
    FailuresOfFirst(w, |w.protocols|);
    assert Finals(w)[..|w.protocols|] == Finals(w);
    EmissionFails(w);
  }

  lemma EmissionFails(w: World)
    ensures ExitOf(w).EmissionAt? ==>
              ExitOf(w).m < |w.protocols| && !w.emit(ExitOf(w).n, ExitOf(w).m).Sent?
  {
    hide ExitFrom, FirstFailing;
  }

  /** The error rate is that of the counters, to six decimals; and 0 for a run without messages. */
  lemma RateIs(errors: nat, total: nat, millionths: int)
    ensures total == 0 ==> ErrorRate(errors, total) == 0.0
    ensures total > 0 ==>
              var exact := 1000000.0 * (errors as real / total as real);
              (ErrorRate(errors, total) == millionths as real / 1000000.0 <==>
               millionths as real - 0.5 < exact < millionths as real + 0.5 ||
               (millionths % 2 == 0 && (exact == millionths as real - 0.5 || exact == millionths as real + 0.5)))
  {
    hide RoundHalfEven;
    if total > 0 {
      RoundsToNearest((errors as real / total as real) * 1000000.0, millionths);
    }
  }

  lemma RatioInUnit(errors: nat, total: nat)
    requires total > 0
    ensures 0.0 <= errors as real / total as real
    ensures errors <= total ==> errors as real / total as real <= 1.0
  {
    var r := errors as real / total as real;
    assert r * total as real == errors as real;
  }

  lemma Round6InUnit(x: real)
    requires 0.0 <= x <= 1.0
    ensures 0.0 <= Round6(x) <= 1.0
  {
    var y := x * 1000000.0;
    assert 0 <= y.Floor <= 1000000;
  }

  lemma AtLeastOneRound(p: nat, n: nat)
    requires n > 0
    ensures p <= p * n
  {
    if n > 1 {
      AtLeastOneRound(p, n - 1);
      assert p * n == p * (n - 1) + p;
    }
  }

  /** The error rate of a run lies between 0 and 1. */
  lemma ErrorRateInUnit(w: World)
    ensures 0.0 <= ToSummary(Finals(w)).errorRate <= 1.0
  {
    hide Total, Errors, Finals, PercentileSummary, Round6, ExitOf;
    TotalsByExit(w);
    var t := Total(Finals(w));
    if t.planned > 0 {
      var exit := ExitOf(w);
      if exit.SchemaAt? {
        assert exit.n > 0;
        AtLeastOneRound(|w.protocols|, exit.n);
      }
      RatioInUnit(Errors(t), t.planned);
      Round6InUnit(Errors(t) as real / t.planned as real);
    }
  }

  lemma Round6ToZero(x: real)
    requires 0.0 <= x
    ensures Round6(x) == 0.0 <==> x * 2000000.0 <= 1.0
  {
    var y := x * 1000000.0;
    assert Round6(x) == 0.0 <==> RoundHalfEven(y) == 0;
  }

  lemma RatioAtMost(errors: nat, total: nat)
    requires total > 0
    ensures errors as real / total as real * 2000000.0 <= 1.0 <==> errors * 2000000 <= total
  {
    var r := errors as real / total as real;
    assert r * total as real == errors as real;
    ScaleLeq(r * 2000000.0, 1.0, total as real);
    assert r * 2000000.0 * total as real == (errors * 2000000) as real;
  }

  lemma ScaleLeq(a: real, b: real, c: real)
    requires c > 0.0
    ensures a <= b <==> a * c <= b * c
  {
    assert b * c - a * c == (b - a) * c;
  }

  /** A run that failed reports the error rate 0 exactly when its first envelope was malformed
      or its errors are too few for six decimals. */
  lemma FailedRunReportsZeroIff(w: World)
    requires w.protocols != [] && !ExitOf(w).Finished?
    ensures var s := ToSummary(Finals(w));
            s.exitStatus == 1 &&
            (s.errorRate == 0.0 <==> ExitOf(w) == SchemaAt(0) || Errors(s.totals) * 2000000 <= s.totals.planned)
  {
    hide Total, Errors, Finals, PercentileSummary, Round6, ExitOf;
    TotalsByExit(w);
    var t, exit := Total(Finals(w)), ExitOf(w);
    if t.planned > 0 {
      RatioInUnit(Errors(t), t.planned);
      Round6ToZero(Errors(t) as real / t.planned as real);
      RatioAtMost(Errors(t), t.planned);
    } else if exit.SchemaAt? && exit.n > 0 {
      AtLeastOneRound(|w.protocols|, exit.n);
    }
  }
}
