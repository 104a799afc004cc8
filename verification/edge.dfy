/** The alert pipeline and the back-pressure counters of `scripts/services/events-ingest.py`:
    one atomic step for each parsed request. */
module Edge {
  import opened Arithmetic
  import opened Text

  const BACKPRESSURE_THRESHOLD_MS: int := 50_000
  const DROP_BUDGET_MS: int := 200_000
  const BACKOFF_BASE_MS: nat := 200

  /** The states of an alert after `initial`, in their only order. */
  const LADDER: seq<string> := ["acknowledged", "investigating", "resolved", "closed"]

  /** `ALERT_TRANSITIONS.get(state, ())`: at most one state may follow. */
  function NextState(state: string): Option<string> {
    match state
    case "initial" => Some("acknowledged")
    case "acknowledged" => Some("investigating")
    case "investigating" => Some("resolved")
    case "resolved" => Some("closed")
    case _ => None
  }

  datatype AlertBody = AlertBody(alertId: Option<string>, sourceChangeId: Option<string>, deviceId: Option<string>,
                                 severity: Option<string>, timestamp: Option<string>, rule: Option<string>)

  datatype Move = Move(to: string, actor: Option<string>, reason: Option<string>)

  datatype Alert = Alert(alertId: string, state: string, body: AlertBody, createdAt: string, history: seq<Move>)

  datatype TransitionBody = TransitionBody(target: Option<string>, actor: Option<string>, reason: Option<string>)

  /** A line of the incoming-alerts topic. */
  datatype TopicLine = TopicLine(alertId: string, deviceId: Option<string>, severity: Option<string>,
                                 timestamp: Option<string>, regionId: string, tenantId: string, rule: Option<string>)

  /** A request after authentication and parsing; a body that does not parse is `None`. */
  datatype Request =
    | Batch(authorized: bool, count: Option<int>)
    | ControlLag(authorized: bool, lagMs: Option<int>)
    | CreateAlert(authorized: bool, alert: Option<AlertBody>, now: string)
    | TransitionAlert(authorized: bool, alertId: string, change: Option<TransitionBody>)
    | CountAlerts(sourceChangeId: Option<string>)

  datatype Reply =
    | Error(status: nat)
    | BatchTaken(delivered: int, dropped: int, backoffMs: nat)
    | LagSet(lagMs: int)
    | AlertReply(status: nat, alertId: string, state: string)
    | Count(count: nat)

  datatype State = State(lagMs: int, backoffCount: nat, droppedTotal: int,
                         alerts: map<string, Alert>, idempotency: map<string, string>, topic: seq<TopicLine>)

  const START: State := State(0, 0, 0, map[], map[], [])

  /** A missing or empty string counts as absent. */
  predicate Given(s: Option<string>) {
    s.Some? && s.value != ""
  }

  // ---- what holds at every moment ----

  /** The history climbs the ladder from its foot, and the state is the rung reached. */
  predicate OnLadder(a: Alert) {
    && |a.history| <= |LADDER|
    && (forall i | 0 <= i < |a.history| :: a.history[i].to == LADDER[i])
    && a.state == (if a.history == [] then "initial" else a.history[|a.history| - 1].to)
  }

  predicate Valid(s: State) {
    && (forall src | src in s.idempotency :: src != "" && s.idempotency[src] in s.alerts)
    && (forall id | id in s.alerts :: s.alerts[id].alertId == id && OnLadder(s.alerts[id]))
  }

  // ---- the steps ----

  function BatchStep(s: State, authorized: bool, count: Option<int>): (State, Reply) {
    if !authorized then (s, Error(401))
    else if count.None? then (s, Error(400))
    else if s.lagMs >= DROP_BUDGET_MS then
      (s.(droppedTotal := s.droppedTotal + count.value), BatchTaken(0, count.value, BACKOFF_BASE_MS * Pow2(12)))
    else if s.lagMs >= BACKPRESSURE_THRESHOLD_MS then
      (s.(backoffCount := s.backoffCount + 1),
       BatchTaken(count.value, 0, BACKOFF_BASE_MS * Pow2(s.backoffCount + 1)))
    else
      (s.(backoffCount := 0), BatchTaken(count.value, 0, 0))
  }

  function LagStep(s: State, authorized: bool, lagMs: Option<int>): (State, Reply) {
    if !authorized then (s, Error(401))
    else if lagMs.None? then (s, Error(400))
    else
      (s.(lagMs := lagMs.value,
          droppedTotal := s.droppedTotal + (if lagMs.value >= DROP_BUDGET_MS then 1 else 0)),
       LagSet(lagMs.value))
  }

  /** `_enriched_event`; every known device and the default have the same context. */
  function Enriched(alertId: string, a: AlertBody): TopicLine {
    TopicLine(alertId, a.deviceId, a.severity, a.timestamp, "region-1", "company:acme", a.rule)
  }

  function CreateStep(s: State, authorized: bool, alert: Option<AlertBody>, now: string): (State, Reply)
    requires Valid(s)
  {
    if !authorized then (s, Error(401))
    else if alert.None? || !Given(alert.value.alertId) then (s, Error(400))
    else
      var id, src := alert.value.alertId.value, alert.value.sourceChangeId;
      if Given(src) && src.value in s.idempotency then
        var original := s.idempotency[src.value];
        (s, AlertReply(200, original, s.alerts[original].state))
      else
        (s.(alerts := s.alerts[id := Alert(id, "initial", alert.value, now, [])],
            idempotency := if Given(src) then s.idempotency[src.value := id] else s.idempotency,
            topic := s.topic + [Enriched(id, alert.value)]),
         AlertReply(202, id, "initial"))
  }

  function TransitionStep(s: State, authorized: bool, id: string, change: Option<TransitionBody>): (State, Reply) {
    if !authorized then (s, Error(401))
    else if change.None? then (s, Error(400))
    else if id !in s.alerts then (s, Error(404))
    else
      var a := s.alerts[id];
      if change.value.target.None? || change.value.target != NextState(a.state) then (s, Error(409))
      else
        var to := change.value.target.value;
        (s.(alerts := s.alerts[id := a.(state := to,
                                        history := a.history + [Move(to, change.value.actor, change.value.reason)])]),
         AlertReply(200, id, to))
  }

  function CountStep(s: State, src: Option<string>): (State, Reply) {
    if src.None? then (s, Error(400)) else (s, Count(if src.value in s.idempotency then 1 else 0))
  }

  function Step(s: State, r: Request): (State, Reply)
    requires Valid(s)
  {
    match r
    case Batch(authorized, count) => BatchStep(s, authorized, count)
    case ControlLag(authorized, lagMs) => LagStep(s, authorized, lagMs)
    case CreateAlert(authorized, alert, now) => CreateStep(s, authorized, alert, now)
    case TransitionAlert(authorized, id, change) => TransitionStep(s, authorized, id, change)
    case CountAlerts(src) => CountStep(s, src)
  }

  /** A move that is allowed takes an alert exactly one rung up. */
  lemma NextRung(a: Alert, to: string, move: Move)
    requires OnLadder(a) && NextState(a.state) == Some(to) && move.to == to
    ensures |a.history| < |LADDER| && to == LADDER[|a.history|]
    ensures OnLadder(a.(state := to, history := a.history + [move]))
  {
    var n := |a.history|;
    if n > 0 {
      assert a.state == LADDER[n - 1];
      assert n == 1 || n == 2 || n == 3 || n == 4;
    }
  }

  lemma StepKeepsValid(s: State, r: Request)
    requires Valid(s)
    ensures Valid(Step(s, r).0)
  {
    if r.TransitionAlert? && Step(s, r).1.AlertReply? {
      var a, change := s.alerts[r.alertId], r.change.value;
      NextRung(a, change.target.value, Move(change.target.value, change.actor, change.reason));
    }
  }

  // ---- what each request is answered ----

  /** A request is refused with 401 without its key, with 400 when its body or its parameter is
      missing; a refusal changes nothing. */
  lemma RefusedIff(s: State, r: Request)
    requires Valid(s)
    ensures Step(s, r).1.Error? ==> Step(s, r).0 == s
    ensures Step(s, r).1 == Error(401) <==> !r.CountAlerts? && !r.authorized
    ensures Step(s, r).1 == Error(400) <==>
              if r.CountAlerts? then r.sourceChangeId == None
              else r.authorized && match r
                                   case Batch(_, count) => count == None
                                   case ControlLag(_, lagMs) => lagMs == None
                                   case CreateAlert(_, alert, _) =>
                                     alert == None || alert.value.alertId == None || alert.value.alertId == Some("")
                                   case TransitionAlert(_, _, change) => change == None
  {
    hide Pow2, Enriched, NextState;
  }

  /** A post of a known source change is answered with its alert and the state it is in; any
      other one makes a fresh alert over what was there, and puts one line on the topic. */
  lemma CreateAnswers(s: State, alert: AlertBody, now: string)
    requires Valid(s) && alert.alertId.Some? && alert.alertId.value != ""
    ensures var (next, reply) := Step(s, CreateAlert(true, Some(alert), now));
            var id, src := alert.alertId.value, alert.sourceChangeId;
            if src.Some? && src.value != "" && src.value in s.idempotency then
              var known := s.idempotency[src.value];
              next == s && reply == AlertReply(200, known, s.alerts[known].state)
            else
              && reply == AlertReply(202, id, "initial")
              && next.alerts == s.alerts[id := Alert(id, "initial", alert, now, [])]
              && next.topic == s.topic + [TopicLine(id, alert.deviceId, alert.severity, alert.timestamp,
                                                    "region-1", "company:acme", alert.rule)]
              && next.idempotency == (if src.Some? && src.value != "" then s.idempotency[src.value := id] else s.idempotency)
              && (next.lagMs, next.backoffCount, next.droppedTotal) == (s.lagMs, s.backoffCount, s.droppedTotal)
  {
    hide OnLadder, NextState;
  }

  /** A transition is made exactly if it is the next of the four: to the state that follows as
      many as the alert has made. It is added to the history; nothing else changes. */
  lemma TransitionIff(s: State, id: string, change: TransitionBody)
    requires Valid(s)
    ensures var (next, reply) := Step(s, TransitionAlert(true, id, Some(change)));
            if id !in s.alerts then next == s && reply == Error(404)
            else
              var a := s.alerts[id];
              var n := |a.history|;
              if n < 4 && change.target == Some(["acknowledged", "investigating", "resolved", "closed"][n]) then
                var to := change.target.value;
                && reply == AlertReply(200, id, to)
                && next == s.(alerts := s.alerts[id := Alert(a.alertId, to, a.body, a.createdAt,
                                                             a.history + [Move(to, change.actor, change.reason)])])
              else next == s && reply == Error(409)
  {
    hide Valid, OnLadder, NextState;
    if id in s.alerts {
      var a := s.alerts[id];
      AlertIsOnLadder(s, id);
      NextOnLadder(a);
    }
  }

  lemma NextOnLadder(a: Alert)
    requires OnLadder(a)
    ensures var n := |a.history|;
            NextState(a.state) ==
            if n < 4 then Some(["acknowledged", "investigating", "resolved", "closed"][n]) else None
  {
    var n := |a.history|;
    if n > 0 {
      assert a.state == LADDER[n - 1];
      assert n == 1 || n == 2 || n == 3 || n == 4;
    }
  }

  // ---- the server ----

  class EdgeServer {
    var lagMs: int
    var backoffCount: nat
    var droppedTotal: int
    var alerts: map<string, Alert>
    var idempotency: map<string, string>
    var topic: seq<TopicLine>

    ghost function Now(): State
      reads this
    {
      State(lagMs, backoffCount, droppedTotal, alerts, idempotency, topic)
    }

    constructor ()
      ensures Now() == State(0, 0, 0, map[], map[], []) && Valid(Now())
    {
      lagMs, backoffCount, droppedTotal := 0, 0, 0;
      alerts, idempotency, topic := map[], map[], [];
    }

    method TelemetryBatch(authorized: bool, count: Option<int>) returns (r: Reply)
      requires Valid(Now())
      modifies this
      ensures (Now(), r) == Step(old(Now()), Batch(authorized, count)) && Valid(Now())
    {
      if !authorized {
        return Error(401);
      }
      if count.None? {
        return Error(400);
      }
      if lagMs >= DROP_BUDGET_MS {
        droppedTotal := droppedTotal + count.value;
        return BatchTaken(0, count.value, BACKOFF_BASE_MS * Pow2(12));
      }
      if lagMs >= BACKPRESSURE_THRESHOLD_MS {
        backoffCount := backoffCount + 1;
        return BatchTaken(count.value, 0, BACKOFF_BASE_MS * Pow2(backoffCount));
      }
      backoffCount := 0;
      r := BatchTaken(count.value, 0, 0);
    }

    method SetLag(authorized: bool, lag: Option<int>) returns (r: Reply)
      requires Valid(Now())
      modifies this
      ensures (Now(), r) == Step(old(Now()), ControlLag(authorized, lag)) && Valid(Now())
    {
      if !authorized {
        return Error(401);
      }
      if lag.None? {
        return Error(400);
      }
      lagMs := lag.value;
      if lagMs >= DROP_BUDGET_MS {
        droppedTotal := droppedTotal + 1;
      }
      r := LagSet(lagMs);
    }

    method Create(authorized: bool, alert: Option<AlertBody>, now: string) returns (r: Reply)
      requires Valid(Now())
      modifies this
      ensures (Now(), r) == Step(old(Now()), CreateAlert(authorized, alert, now)) && Valid(Now())
    {
      if !authorized {
        return Error(401);
      }
      if alert.None? || !Given(alert.value.alertId) {
        return Error(400);
      }
      var id, src := alert.value.alertId.value, alert.value.sourceChangeId;
      if Given(src) && src.value in idempotency {
        var original := idempotency[src.value];
        return AlertReply(200, original, alerts[original].state);
      }
      alerts := alerts[id := Alert(id, "initial", alert.value, now, [])];
      if Given(src) {
        idempotency := idempotency[src.value := id];
      }
      topic := topic + [Enriched(id, alert.value)];
      r := AlertReply(202, id, "initial");
    }

    method Transition(authorized: bool, id: string, change: Option<TransitionBody>) returns (r: Reply)
      requires Valid(Now())
      modifies this
      ensures (Now(), r) == Step(old(Now()), TransitionAlert(authorized, id, change)) && Valid(Now())
    {
      StepKeepsValid(Now(), TransitionAlert(authorized, id, change));
      if !authorized {
        return Error(401);
      }
      if change.None? {
        return Error(400);
      }
      if id !in alerts {
        return Error(404);
      }
      var a := alerts[id];
      var target := change.value.target;
      if target.None? || target != NextState(a.state) {
        return Error(409);
      }
      var move := Move(target.value, change.value.actor, change.value.reason);
      alerts := alerts[id := a.(state := target.value, history := a.history + [move])];
      r := AlertReply(200, id, target.value);
    }

    method CountOf(src: Option<string>) returns (r: Reply)
      requires Valid(Now())
      ensures r == Step(Now(), CountAlerts(src)).1
    {
      hide Valid, OnLadder, Pow2, NextState, Enriched;
      if src.None? {
        return Error(400);
      }
      r := Count(if src.value in idempotency then 1 else 0);
    }
  }

  // ---- runs ----

  /** The state after a run of requests. */
  function Run(start: State, rs: seq<Request>): (s: State)
    requires Valid(start)
    ensures Valid(s)
  {
    if rs == [] then start
    else
      var s := Run(start, rs[..|rs| - 1]);
      StepKeepsValid(s, rs[|rs| - 1]);
      Step(s, rs[|rs| - 1]).0
  }

  /** The reply to the `i`-th request of a run. */
  function ReplyTo(start: State, rs: seq<Request>, i: nat): Reply
    requires Valid(start) && i < |rs|
  {
    Step(Run(start, rs[..i]), rs[i]).1
  }

  lemma RunNone(start: State)
    requires Valid(start)
    ensures Run(start, []) == start
  {
  }

  lemma RunOne(start: State, rs: seq<Request>, i: nat)
    requires Valid(start) && i < |rs|
    ensures Run(start, rs[..i + 1]) == Step(Run(start, rs[..i]), rs[i]).0
  {
    assert rs[..i + 1][..i] == rs[..i];
  }

  /** An idempotency entry is never bound to another alert. */
  lemma {:induction false} NeverRebound(start: State, rs: seq<Request>, i: nat, j: nat, src: string)
    requires Valid(start) && i <= j <= |rs| && src in Run(start, rs[..i]).idempotency
    ensures src in Run(start, rs[..j]).idempotency
    ensures Run(start, rs[..j]).idempotency[src] == Run(start, rs[..i]).idempotency[src]
    decreases j
  {
    hide Run, Valid, OnLadder, Pow2, NextState, Enriched;
    if i < j {
      NeverRebound(start, rs, i, j - 1, src);
      RunOne(start, rs, j - 1);
    }
  }

  predicate Creates(r: Request, src: string) {
    r.CreateAlert? && r.alert.Some? && r.alert.value.sourceChangeId == Some(src)
  }

  /** Once a source change has been answered with an alert, every later post of it is answered
      with the same alert and 200, or refused; so it is accepted (202) at most once. */
  lemma SameAlertForSource(start: State, rs: seq<Request>, i: nat, j: nat, src: string)
    requires Valid(start) && i < j < |rs| && src != "" && Creates(rs[i], src) && Creates(rs[j], src)
    requires ReplyTo(start, rs, i).AlertReply?
    ensures ReplyTo(start, rs, j).AlertReply? ==>
              ReplyTo(start, rs, j).status == 200 && ReplyTo(start, rs, j).alertId == ReplyTo(start, rs, i).alertId
    ensures ReplyTo(start, rs, j).Error? ==> !rs[j].authorized || !Given(rs[j].alert.value.alertId)
  {
    hide Run, Valid, OnLadder, Pow2, NextState, Enriched;
    RunOne(start, rs, i);
    NeverRebound(start, rs, i + 1, j, src);
  }

  /** Accepted creations for a source change. */
  function Creations(start: State, rs: seq<Request>, src: string): nat
    requires Valid(start)
  {
    if rs == [] then 0
    else
      var n := |rs| - 1;
      var reply := ReplyTo(start, rs, n);
      Creations(start, rs[..n], src)
        + (if Creates(rs[n], src) && reply.AlertReply? && reply.status == 202 then 1 else 0)
  }

  /** The count endpoint tells the number of accepted creations, which is never more than one. */
  lemma {:induction false} CountIsCreations(rs: seq<Request>, src: string)
    requires src != ""
    ensures Creations(START, rs, src) == if src in Run(START, rs).idempotency then 1 else 0
    ensures Step(Run(START, rs), CountAlerts(Some(src))).1 == Count(Creations(START, rs, src))
  {
    hide Run, Valid, OnLadder, Pow2, NextState, Enriched;
    RunNone(START);
    if rs != [] {
      var n := |rs| - 1;
      assert rs[..n + 1] == rs;
      CountIsCreations(rs[..n], src);
      RunOne(START, rs, n);
    }
  }

  /** Accepted creations of any kind. */
  function AllCreations(start: State, rs: seq<Request>): nat
    requires Valid(start)
  {
    if rs == [] then 0
    else
      var n := |rs| - 1;
      var reply := ReplyTo(start, rs, n);
      AllCreations(start, rs[..n]) + (if reply.AlertReply? && reply.status == 202 then 1 else 0)
  }

  /** One topic line for each accepted creation, and lines are never taken back. */
  lemma {:induction false} TopicHasOneLineEach(start: State, rs: seq<Request>)
    requires Valid(start)
    ensures start.topic <= Run(start, rs).topic
    ensures |Run(start, rs).topic| == |start.topic| + AllCreations(start, rs)
  {
    hide Run, Valid, OnLadder, Pow2, NextState, Enriched;
    RunNone(start);
    if rs != [] {
      var n := |rs| - 1;
      assert rs[..n + 1] == rs;
      TopicHasOneLineEach(start, rs[..n]);
      RunOne(start, rs, n);
    }
  }

  /** Successful transitions of an alert since it was last created. */
  function MovesSinceCreation(start: State, rs: seq<Request>, id: string): nat
    requires Valid(start)
  {
    if rs == [] then 0
    else
      var n := |rs| - 1;
      var before, reply := MovesSinceCreation(start, rs[..n], id), ReplyTo(start, rs, n);
      if !reply.AlertReply? || reply.alertId != id then before
      else if reply.status == 202 then 0
      else if rs[n].TransitionAlert? then before + 1
      else before
  }

  lemma StepMoves(s: State, r: Request, id: string)
    requires Valid(s) && id in Step(s, r).0.alerts
    ensures var next, reply := Step(s, r).0, Step(s, r).1;
            if reply.AlertReply? && reply.alertId == id && reply.status == 202 then next.alerts[id].history == []
            else id in s.alerts && |next.alerts[id].history| == |s.alerts[id].history|
                 + (if reply.AlertReply? && reply.alertId == id && r.TransitionAlert? then 1 else 0)
  {
    hide Valid, OnLadder, NextState, Enriched;
  }

  lemma AlertIsOnLadder(s: State, id: string)
    requires Valid(s) && id in s.alerts
    ensures OnLadder(s.alerts[id]) && |s.alerts[id].history| <= 4
  {
  }

  /** Every alert has made exactly the moves since its creation, at most four, up the ladder. */
  lemma {:induction false} MovesClimbTheLadder(rs: seq<Request>, id: string)
    requires id in Run(START, rs).alerts
    ensures |Run(START, rs).alerts[id].history| == MovesSinceCreation(START, rs, id) <= 4
    ensures OnLadder(Run(START, rs).alerts[id])
  {
    hide Run, Valid, OnLadder, Step;
    RunNone(START);
    assert rs[..0] == [];
    var n := |rs| - 1;
    assert rs != [];
    assert rs[..n + 1] == rs;
    RunOne(START, rs, n);
    AlertIsOnLadder(Run(START, rs), id);
    StepMoves(Run(START, rs[..n]), rs[n], id);
    if id in Run(START, rs[..n]).alerts {
      MovesClimbTheLadder(rs[..n], id);
    }
  }

  // ---- back-pressure over runs ----

  function DroppedIn(reply: Reply): int {
    if reply.BatchTaken? then reply.dropped else 0
  }

  /** Messages dropped and over-budget lags injected in a run. */
  function Losses(start: State, rs: seq<Request>): int
    requires Valid(start)
  {
    if rs == [] then 0
    else
      var n := |rs| - 1;
      var reply := ReplyTo(start, rs, n);
      Losses(start, rs[..n]) + DroppedIn(reply) + (if reply.LagSet? && reply.lagMs >= 200_000 then 1 else 0)
  }

  /** `dropped_total` is the dropped counts plus one for each over-budget lag. */
  lemma {:induction false} DropsAddUp(start: State, rs: seq<Request>)
    requires Valid(start)
    ensures Run(start, rs).droppedTotal == start.droppedTotal + Losses(start, rs)
  {
    hide Run, Valid, OnLadder, Pow2, NextState, Enriched;
    RunNone(start);
    if rs != [] {
      var n := |rs| - 1;
      assert rs[..n + 1] == rs;
      DropsAddUp(start, rs[..n]);
      RunOne(start, rs, n);
    }
  }

  /** The lag in force at the `i`-th request. */
  function LagAt(start: State, rs: seq<Request>, i: nat): int
    requires Valid(start) && i <= |rs|
  {
    if i == 0 then start.lagMs
    else if ReplyTo(start, rs, i - 1).LagSet? then ReplyTo(start, rs, i - 1).lagMs
    else LagAt(start, rs, i - 1)
  }

  lemma {:induction false} LagIsLastSet(start: State, rs: seq<Request>, i: nat)
    requires Valid(start) && i <= |rs|
    ensures Run(start, rs[..i]).lagMs == LagAt(start, rs, i)
  {
    hide Run, Valid, OnLadder, Pow2, NextState, Enriched;
    RunNone(start);
    assert rs[..0] == [];
    if i > 0 {
      LagIsLastSet(start, rs, i - 1);
      RunOne(start, rs, i - 1);
    }
  }

  /** Batches taken in the congested band since the last uncongested one. */
  function CongestedSince(start: State, rs: seq<Request>, i: nat): nat
    requires Valid(start) && i <= |rs|
  {
    if i == 0 then 0
    else
      var before, lag := CongestedSince(start, rs, i - 1), LagAt(start, rs, i - 1);
      if !ReplyTo(start, rs, i - 1).BatchTaken? || lag >= 200_000 then before
      else if lag >= 50_000 then before + 1
      else 0
  }

  lemma {:induction false} BackoffCounts(rs: seq<Request>, i: nat)
    requires i <= |rs|
    ensures Run(START, rs[..i]).backoffCount == CongestedSince(START, rs, i)
  {
    hide Run, Valid, OnLadder, Pow2, NextState, Enriched;
    RunNone(START);
    assert rs[..0] == [];
    if i > 0 {
      BackoffCounts(rs, i - 1);
      LagIsLastSet(START, rs, i - 1);
      RunOne(START, rs, i - 1);
    }
  }

  /** Every batch taken is accounted for: nothing is dropped under the budget, everything over
      it; and the k-th congested batch since the last uncongested one backs off 200 * 2^k. */
  lemma BatchesAreAccounted(rs: seq<Request>, i: nat)
    requires i < |rs| && ReplyTo(START, rs, i).BatchTaken?
    ensures var reply, lag, k := ReplyTo(START, rs, i), LagAt(START, rs, i), CongestedSince(START, rs, i + 1);
            && rs[i].Batch? && rs[i].count == Some(reply.delivered + reply.dropped)
            && (lag < 200_000 ==> reply.dropped == 0)
            && (lag >= 200_000 ==> reply.delivered == 0 && reply.backoffMs == 819_200)
            && (lag < 50_000 ==> reply.backoffMs == 0 && k == 0)
            && (50_000 <= lag < 200_000 ==> k > 0 && reply.backoffMs == 200 * Pow2(k))
  {
    hide Run, Valid, OnLadder, Pow2, NextState, Enriched;
    StartIsValid();
    LagIsLastSet(START, rs, i);
    BackoffCounts(rs, i);
    Pow2Of12();
  }

  lemma StartIsValid()
    ensures Valid(START)
  {
  }

  lemma Pow2Of12()
    ensures Pow2(12) == 4096
  {
    Pow2More(0);
    Pow2More(2);
    Pow2More(4);
  }
}
