/** The router: one decision per statement, over failure counts, execution counts, quarantine and
    session counters. Everything outside it (parsing, the guards that look at the connection, the
    engine, DuckDB, the random draw) arrives as the query's inputs. */
module Router {
  import opened Wrappers
  import opened Verdict
  import opened Guards
  import opened Registry

  datatype Mode = Off | Sampled | BespokeOnly

  datatype Policy = Policy(mode: Mode, enabled: bool, crossCheckRate: real, verifyFirstN: int, breakerThreshold: int, blockWrites: bool)
  {
    predicate RoutingActive() {
      enabled && mode != Off
    }
  }

  datatype EngineRun = EngineFails(message: string) | EngineReturns(table: Result)

  /** One statement with all that its routing depends on. */
  datatype Query = Query(
    normalized: Option<string>,       // structural key; None if the text does not parse
    engineReady: GuardRun,
    selectOnly: GuardRun,
    schemaMatch: GuardRun,
    placeholderArity: GuardRun,
    bound: bool,                      // the placeholders could be bound
    engine: EngineRun,                // what the engine does if it is run
    connected: bool,                  // a connection was passed
    draw: real,                       // the random draw, if one is taken
    reference: Option<Result>,        // DuckDB's answer in the cross-check; None if that run fails
    referenceError: string,           // the text of that failure
    comparable: bool,                 // the comparison does not raise
    ordered: bool,
    orderKeys: Option<seq<nat>>)

  datatype Counters = Counters(routed: nat, fellBack: nat, crossChecked: nat, mismatch: nat, crossCheckError: nat, blockedWrites: nat)

  datatype RouterState = RouterState(
    registry: RegistryState,
    failures: map<string, nat>,
    execCounts: map<string, nat>,
    counters: Counters,
    fallbackReasons: multiset<string>)

  datatype Path = Pending | Bespoke | Fallback

  datatype Server = Nobody | Engine | DuckDb

  datatype Trace = Trace(path: Path, reason: string, template: Option<string>, crossChecked: bool, resultsMatch: Option<bool>, servedBy: Server)

  /** Refused is the exception of the bespoke-only test mode. */
  datatype Outcome = Refused | FellBack | Routed(result: Result)

  datatype Step = Step(state: RouterState, outcome: Outcome, trace: Trace)

  const NEW_TRACE := Trace(Pending, "", None, false, None, Nobody)

  function Get(m: map<string, nat>, k: string): nat {
    if k in m then m[k] else 0
  }

  function Start(): RouterState {
    RouterState(RegistryState(map[], {}, {}), map[], map[], Counters(0, 0, 0, 0, 0, 0), multiset{})
  }

  // ---- the decision, as a function -------------------------------------------

  function Tally(s: RouterState, t: Trace): RouterState {
    var c := s.counters;
    match t.path
    case Bespoke =>
      if t.servedBy == DuckDb then
        s.(counters := c.(crossChecked := c.crossChecked + 1,
                          mismatch := c.mismatch + (if t.resultsMatch == Some(false) then 1 else 0)))
      else
        s.(counters := c.(routed := c.routed + 1,
                          crossChecked := c.crossChecked + (if t.crossChecked then 1 else 0),
                          mismatch := c.mismatch + (if t.crossChecked && t.resultsMatch == Some(false) then 1 else 0)))
    case Fallback =>
      s.(counters := c.(fellBack := c.fellBack + 1), fallbackReasons := s.fallbackReasons + multiset{t.reason})
    case Pending => s
  }

  function FallBack(pol: Policy, s: RouterState, t: Trace, reason: string, matched: bool): Step {
    var t2 := t.(path := Fallback, reason := reason);
    if matched && pol.mode == BespokeOnly then Step(s, Refused, t2) else Step(Tally(s, t2), FellBack, t2)
  }

  function ShouldCrossCheck(pol: Policy, execCount: nat, draw: real): bool {
    if pol.mode == BespokeOnly then false
    else if pol.crossCheckRate <= 0.0 then false
    else if execCount <= pol.verifyFirstN then true
    else if pol.crossCheckRate >= 1.0 then true
    else draw < pol.crossCheckRate
  }

  function Quarantined(s: RouterState, t: string): RouterState {
    s.(registry := s.registry.Sidelined(t))
  }

  function FailureRecorded(pol: Policy, s: RouterState, t: string): RouterState {
    var count := Get(s.failures, t) + 1;
    var s2 := s.(failures := s.failures[t := count]);
    if count >= pol.breakerThreshold && t !in s.registry.quarantined then Quarantined(s2, t) else s2
  }

  function SuccessRecorded(s: RouterState, t: string): RouterState {
    s.(failures := s.failures - {t})
  }

  function ErrorCounted(s: RouterState): RouterState {
    s.(counters := s.counters.(crossCheckError := s.counters.crossCheckError + 1))
  }

  function WriteBlocked(s: RouterState): RouterState {
    s.(counters := s.counters.(blockedWrites := s.counters.blockedWrites + 1))
  }

  function ServeReference(s: RouterState, t: Trace, reference: Result): Step {
    var t2 := t.(servedBy := DuckDb);
    Step(Tally(s, t2), Routed(reference), t2)
  }

  function GuardStack(s: RouterState, b: Binding, q: Query): seq<(string, GuardRun)> {
    [("engine_ready_guard", q.engineReady),
     ("select_only_guard", q.selectOnly),
     ("dirty_table_guard",
      if s.registry.IsDirty(b) then Fails("a bound table was modified since ingest") else Passes("tables clean")),
     ("schema_match_guard", q.schemaMatch),
     ("placeholder_arity_guard", q.placeholderArity)]
  }

  predicate GuardsPass(guards: seq<(string, GuardRun)>) {
    forall i | 0 <= i < |guards| :: guards[i].1.Passes?
  }

  /** The engine's table is served, checked or not. */
  function ServeEngine(s: RouterState, t: Trace, id: string, table: Result): Step {
    var t2 := t.(servedBy := Engine);
    Step(Tally(SuccessRecorded(s, id), t2), Routed(table), t2)
  }

  /** From the comparison on, with DuckDB's answer in hand. */
  function Compared(pol: Policy, s: RouterState, t: Trace, id: string, q: Query, table: Result, reference: Result, verdict: bool): Step {
    if !q.comparable then ServeReference(FailureRecorded(pol, ErrorCounted(s), id), t, reference)
    else if !verdict then ServeReference(Quarantined(s, id), t.(resultsMatch := Some(false)), reference)
    else ServeEngine(s, t.(resultsMatch := Some(true)), id, table)
  }

  /** From the cross-check on, with the engine's table in hand. */
  function Checked(pol: Policy, s: RouterState, b: Binding, q: Query, table: Result, verdict: bool): Step {
    var id := b.templateId;
    var t := NEW_TRACE.(path := Bespoke, reason := "template match", template := Some(id));
    var s1 := s.(execCounts := s.execCounts[id := Get(s.execCounts, id) + 1]);
    if ShouldCrossCheck(pol, Get(s1.execCounts, id), q.draw) && q.connected then
      match q.reference
      case None => FallBack(pol, ErrorCounted(s1), t, "cross-check reference error: " + q.referenceError, true)
      case Some(reference) => Compared(pol, s1, t.(crossChecked := true), id, q, table, reference, verdict)
    else ServeEngine(s1, t, id, table)
  }

  /** From the guards on, with a matching binding in hand. */
  function Matched(pol: Policy, s: RouterState, b: Binding, q: Query, verdict: bool): Step {
    var guards := GuardStack(s, b, q);
    if !GuardsPass(guards) then
      var k := PassedBefore(guards);
      FallBack(pol, s, NEW_TRACE, LineOf(guards[k].0, guards[k].1).detail, true)
    else if !q.bound then
      FallBack(pol, s, NEW_TRACE, "placeholder binding failed (constant/structure mismatch)", true)
    else
      match q.engine
      case EngineFails(message) =>
        FallBack(pol, FailureRecorded(pol, s, b.templateId), NEW_TRACE, "engine error: " + message, true)
      case EngineReturns(table) => Checked(pol, s, b, q, table, verdict)
  }

  /** The whole decision. */
  function RouteStep(pol: Policy, s: RouterState, q: Query, verdict: bool): Step {
    if !pol.RoutingActive() then
      FallBack(pol, s, NEW_TRACE, if pol.enabled then "mode=off" else "router disabled", false)
    else if s.registry.byNorm == map[] then
      FallBack(pol, s, NEW_TRACE, "no engines registered", false)
    else
      match q.normalized
      case None => FallBack(pol, s, NEW_TRACE, "unparseable SQL", false)
      case Some(key) =>
        match s.registry.Match(key)
        case None => FallBack(pol, s, NEW_TRACE, "no template match", false)
        case Some(b) => Matched(pol, s, b, q, verdict)
  }

  // ---- the decision, as the router takes it -------------------------------------

  /** Results of one query fit together: what the comparison needs not to raise. */
  ghost predicate Comparable(q: Query) {
    q.comparable && q.engine.EngineReturns? && q.reference.Some? ==>
      ArgumentsFit(q.engine.table, q.reference.value, q.orderKeys, None)
  }

  /** The verdict of a comparison: true only if the engine's table agrees with DuckDB's, and false only
      if it does not, where the comparison is exact. */
  ghost predicate Judged(q: Query, verdict: bool) {
    && Comparable(q) && q.comparable && q.engine.EngineReturns? && q.reference.Some?
    && var a, b := q.engine.table, q.reference.value;
       && (verdict ==> Agree(a, b, q.ordered, q.orderKeys, FLOAT_TOL, None, None))
       && (ExactComparison(a, b, q.ordered, q.orderKeys, FLOAT_TOL, None, None) ==>
             (verdict <==> Agree(a, b, q.ordered, q.orderKeys, FLOAT_TOL, None, None)))
  }

  class QueryRouter {
    const policy: Policy
    const registry: TemplateRegistry
    var failures: map<string, nat>
    var execCounts: map<string, nat>
    var counters: Counters
    var fallbackReasons: multiset<string>

    function View(): RouterState
      reads this, registry
    {
      RouterState(registry.View(), failures, execCounts, counters, fallbackReasons)
    }

    constructor (policy: Policy)
      ensures this.policy == policy && fresh(registry) && View() == Start()
    {
      this.policy := policy;
      registry := new TemplateRegistry();
      failures, execCounts := map[], map[];
      counters, fallbackReasons := Counters(0, 0, 0, 0, 0, 0), multiset{};
    }

    method TallyTrace(t: Trace)
      modifies this
      ensures View() == Tally(old(View()), t)
    {
      var c := counters;
      if t.path == Bespoke {
        if t.servedBy == DuckDb {
          counters := c.(crossChecked := c.crossChecked + 1);
          if t.resultsMatch == Some(false) {
            counters := counters.(mismatch := c.mismatch + 1);
          }
          return;
        }
        counters := c.(routed := c.routed + 1);
        if t.crossChecked {
          counters := counters.(crossChecked := c.crossChecked + 1);
          if t.resultsMatch == Some(false) {
            counters := counters.(mismatch := c.mismatch + 1);
          }
        }
      } else if t.path == Fallback {
        counters := c.(fellBack := c.fellBack + 1);
        fallbackReasons := fallbackReasons + multiset{t.reason};
      }
    }

    method Fall(t: Trace, reason: string, matched: bool) returns (outcome: Outcome, trace: Trace)
      modifies this
      ensures Step(View(), outcome, trace) == FallBack(policy, old(View()), t, reason, matched)
    {
      trace := t.(path := Fallback, reason := reason);
      if matched && policy.mode == BespokeOnly {
        return Refused, trace;
      }
      TallyTrace(trace);
      outcome := FellBack;
    }

    method RecordFailure(id: string)
      modifies this, registry
      ensures View() == FailureRecorded(policy, old(View()), id)
    {
      var count := Get(failures, id) + 1;
      failures := failures[id := count];
      if count >= policy.breakerThreshold && id !in registry.quarantined {
        registry.Quarantine(id);
      }
    }

    method RecordSuccess(id: string)
      modifies this
      ensures View() == SuccessRecorded(old(View()), id)
    {
      failures := failures - {id};
    }

    method Serve(t: Trace, reference: Result) returns (outcome: Outcome, trace: Trace)
      modifies this
      ensures Step(View(), outcome, trace) == ServeReference(old(View()), t, reference)
    {
      trace := t.(servedBy := DuckDb);
      TallyTrace(trace);
      outcome := Routed(reference);
    }

    method ServeOwn(t: Trace, id: string, table: Result) returns (outcome: Outcome, trace: Trace)
      modifies this
      ensures Step(View(), outcome, trace) == ServeEngine(old(View()), t, id, table)
    {
      RecordSuccess(id);
      trace := t.(servedBy := Engine);
      TallyTrace(trace);
      outcome := Routed(table);
    }

    method CountError()
      modifies this
      ensures View() == ErrorCounted(old(View()))
    {
      counters := counters.(crossCheckError := counters.crossCheckError + 1);
    }

    /** The comparison and what is served after it. The verdict is the one ResultsEqual gives. */
    method Compare(t: Trace, id: string, q: Query, table: Result, reference: Result)
      returns (outcome: Outcome, trace: Trace, ghost verdict: bool)
      requires q.engine == EngineReturns(table) && q.reference == Some(reference) && Comparable(q)
      requires t.resultsMatch.None?
      modifies this, registry
      ensures Step(View(), outcome, trace) == Compared(policy, old(View()), t, id, q, table, reference, verdict)
      ensures if trace.resultsMatch.Some? then Judged(q, verdict) else !verdict
    {
      trace := t;
      verdict := false;
      if !q.comparable {
        CountError();
        RecordFailure(id);
        outcome, trace := Serve(trace, reference);
        return;
      }
      var matched := ResultsEqual(table, reference, q.ordered, q.orderKeys, FLOAT_TOL, None, None);
      verdict := matched;
      trace := trace.(resultsMatch := Some(matched));
      if !matched {
        registry.Quarantine(id);
        outcome, trace := Serve(trace, reference);
        return;
      }
      outcome, trace := ServeOwn(trace, id, table);
    }

    /** The cross-check, if one is due, and what is served after it. */
    method CrossCheck(b: Binding, q: Query, table: Result) returns (outcome: Outcome, trace: Trace, ghost verdict: bool)
      requires q.engine == EngineReturns(table) && Comparable(q)
      modifies this, registry
      ensures Step(View(), outcome, trace) == Checked(policy, old(View()), b, q, table, verdict)
      ensures if trace.resultsMatch.Some? then Judged(q, verdict) else !verdict
    {
      var id := b.templateId;
      verdict := false;
      trace := NEW_TRACE.(path := Bespoke, reason := "template match", template := Some(id));
      execCounts := execCounts[id := Get(execCounts, id) + 1];
      if ShouldCrossCheck(policy, Get(execCounts, id), q.draw) && q.connected {
        match q.reference
        case None =>
          CountError();
          outcome, trace := Fall(trace, "cross-check reference error: " + q.referenceError, true);
          return;
        case Some(reference) =>
          outcome, trace, verdict := Compare(trace.(crossChecked := true), id, q, table, reference);
          return;
      }
      outcome, trace := ServeOwn(trace, id, table);
    }

    /** Guards, binding and the engine run. */
    method RunMatched(b: Binding, q: Query) returns (outcome: Outcome, trace: Trace, ghost verdict: bool)
      requires Comparable(q)
      modifies this, registry
      ensures Step(View(), outcome, trace) == Matched(policy, old(View()), b, q, verdict)
      ensures if trace.resultsMatch.Some? then Judged(q, verdict) else !verdict
    {
      verdict := false;
      var guards := GuardStack(View(), b, q);
      var ok, lines := Evaluate(guards);
      if !ok {
        outcome, trace := Fall(NEW_TRACE, lines[|lines| - 1].detail, true);
        return;
      }
      if !q.bound {
        outcome, trace := Fall(NEW_TRACE, "placeholder binding failed (constant/structure mismatch)", true);
        return;
      }
      match q.engine
      case EngineFails(message) =>
        RecordFailure(b.templateId);
        outcome, trace := Fall(NEW_TRACE, "engine error: " + message, true);
      case EngineReturns(table) =>
        outcome, trace, verdict := CrossCheck(b, q, table);
    }

    /** Counts a write the connection refused. */
    method NoteBlockedWrite()
      modifies this
      ensures View() == WriteBlocked(old(View()))
    {
      counters := counters.(blockedWrites := counters.blockedWrites + 1);
    }

    /** Decides one statement. */
    method Route(q: Query) returns (outcome: Outcome, trace: Trace, ghost verdict: bool)
      requires Comparable(q)
      modifies this, registry
      ensures Step(View(), outcome, trace) == RouteStep(policy, old(View()), q, verdict)
      ensures if trace.resultsMatch.Some? then Judged(q, verdict) else !verdict
    {
      verdict := false;
      if !policy.RoutingActive() {
        outcome, trace := Fall(NEW_TRACE, if policy.enabled then "mode=off" else "router disabled", false);
        return;
      }
      if registry.byNorm == map[] {
        outcome, trace := Fall(NEW_TRACE, "no engines registered", false);
        return;
      }
      if q.normalized.None? {
        outcome, trace := Fall(NEW_TRACE, "unparseable SQL", false);
        return;
      }
      var found := registry.View().Match(q.normalized.value);
      if found.None? {
        outcome, trace := Fall(NEW_TRACE, "no template match", false);
        return;
      }
      outcome, trace, verdict := RunMatched(found.value, q);
    }
  }

  /** The comparison's default tolerance. */
  const FLOAT_TOL: real := 0.000001
}
