/** What every run of the router keeps: any sequence of statements and registry operations, with any
    engine and DuckDB behaviour and any random draws. */
module RouterRuns {
  import opened Wrappers
  import opened SortedMatch
  import opened Verdict
  import opened Guards
  import opened Registry
  import opened Router

  datatype Op =
    | Call(q: Query, verdict: bool)
    | Register(b: Binding)
    | Unregister(normalizedSql: string)
    | MarkDirty(tables: set<string>)
    | ClearDirty(cleared: Option<set<string>>)
    | BlockedWrite

  function Apply(pol: Policy, s: RouterState, op: Op): RouterState {
    var r := s.registry;
    match op
    case Call(q, verdict) => RouteStep(pol, s, q, verdict).state
    case Register(b) => s.(registry := r.Registered(b))
    case Unregister(key) => s.(registry := r.Unregistered(key))
    case MarkDirty(ts) => s.(registry := r.Dirtied(ts))
    case ClearDirty(cleared) => s.(registry := r.Cleared(cleared))
    case BlockedWrite => WriteBlocked(s)
  }

  /** The state after a whole history. */
  function After(pol: Policy, ops: seq<Op>): RouterState {
    if ops == [] then Start() else Apply(pol, After(pol, ops[..|ops| - 1]), ops[|ops| - 1])
  }

  function WithVerdict(op: Op, verdict: bool): Op {
    if op.Call? then Call(op.q, verdict) else op
  }

  /** One operation on a router; a call gets the verdict its comparison gives, if it makes one. */
  method Perform(router: QueryRouter, op: Op) returns (ghost verdict: bool)
    requires op.Call? ==> Comparable(op.q)
    modifies router, router.registry
    ensures router.View() == Apply(router.policy, old(router.View()), WithVerdict(op, verdict))
    ensures CompareHonestly(router.policy, old(router.View()), WithVerdict(op, verdict))
  {
    verdict := false;
    match op
    case Call(q, _) =>
      var outcome, trace;
      outcome, trace, verdict := router.Route(q);
    case Register(b) => router.registry.Register(b);
    case Unregister(key) => router.registry.Unregister(key);
    case MarkDirty(ts) => router.registry.MarkTablesDirty(ts);
    case ClearDirty(cleared) => router.registry.ClearDirty(cleared);
    case BlockedWrite => router.NoteBlockedWrite();
  }

  /** The operation with a verdict of its own. */
  predicate Performed(op: Op, done: Op) {
    if op.Call? then done.Call? && done.q == op.q else done == op
  }

  /** The operations have been performed in turn from the start, each comparison made as the router makes
      it, and s is the state they lead to. */
  ghost predicate Ran(pol: Policy, s: RouterState, ops: seq<Op>, done: seq<Op>) {
    && |done| == |ops| && (forall k | 0 <= k < |ops| :: Performed(ops[k], done[k]))
    && s == After(pol, done) && HonestHistory(pol, done)
  }

  lemma RanOneMore(pol: Policy, s: RouterState, ops: seq<Op>, done: seq<Op>, op: Op, verdict: bool)
    requires Ran(pol, s, ops, done) && CompareHonestly(pol, s, WithVerdict(op, verdict))
    ensures Ran(pol, Apply(pol, s, WithVerdict(op, verdict)), ops + [op], done + [WithVerdict(op, verdict)])
  {
    var more := done + [WithVerdict(op, verdict)];
    assert more[..|more| - 1] == done;
  }

  method PerformNext(router: QueryRouter, ghost ops: seq<Op>, op: Op, ghost done: seq<Op>) returns (ghost more: seq<Op>)
    requires Ran(router.policy, router.View(), ops, done) && (op.Call? ==> Comparable(op.q))
    modifies router, router.registry
    ensures Ran(router.policy, router.View(), ops + [op], more)
  {
    ghost var s := router.View();
    ghost var verdict := Perform(router, op);
    RanOneMore(router.policy, s, ops, done, op, verdict);
    more := done + [WithVerdict(op, verdict)];
  }

  lemma TakeNext<T>(s: seq<T>, k: nat)
    requires k < |s|
    ensures s[..k] + [s[k]] == s[..k + 1]
  {
  }

  /** A whole sequence of operations on a new router. */
  method PerformAll(router: QueryRouter, ops: seq<Op>) returns (ghost done: seq<Op>)
    requires router.View() == Start()
    requires forall k | 0 <= k < |ops| && ops[k].Call? :: Comparable(ops[k].q)
    modifies router, router.registry
    ensures Ran(router.policy, router.View(), ops, done)
  {
    done := [];
    for k := 0 to |ops|
      invariant Ran(router.policy, router.View(), ops[..k], done)
    {
      done := PerformNext(router, ops[..k], ops[k], done);
      TakeNext(ops, k);
    }
    assert ops[..|ops|] == ops;
  }

  /** A call that compares has the verdict of the comparison. */
  ghost predicate CompareHonestly(pol: Policy, s: RouterState, op: Op) {
    op.Call? && StepOf(pol, s, op).trace.resultsMatch.Some? ==> Judged(op.q, op.verdict)
  }

  /** Every comparison of the run was made as the router makes it. */
  ghost predicate HonestHistory(pol: Policy, ops: seq<Op>) {
    ops == [] || (HonestHistory(pol, ops[..|ops| - 1])
                  && CompareHonestly(pol, After(pol, ops[..|ops| - 1]), ops[|ops| - 1]))
  }

  // ---- what one step did ----------------------------------------------------------

  /** The binding whose guards the statement reaches, if it reaches any. */
  function Candidate(pol: Policy, s: RouterState, q: Query): Option<Binding> {
    if !pol.RoutingActive() || s.registry.byNorm == map[] || q.normalized.None? then None
    else s.registry.Match(q.normalized.value)
  }

  predicate Runs(s: RouterState, b: Binding, q: Query) {
    GuardsPass(GuardStack(s, b, q)) && q.bound
  }

  /** The template whose engine the statement runs, if it runs one. */
  function EngineRunBy(pol: Policy, s: RouterState, q: Query): Option<string> {
    match Candidate(pol, s, q)
    case None => None
    case Some(b) => if Runs(s, b, q) then Some(b.templateId) else None
  }

  /** Without a candidate the statement falls back before anything is recorded against a template. */
  lemma NoCandidate(pol: Policy, s: RouterState, q: Query, verdict: bool) returns (reason: string)
    requires Candidate(pol, s, q).None?
    ensures RouteStep(pol, s, q, verdict) == FallBack(pol, s, NEW_TRACE, reason, false)
  {
    reason := RouteStep(pol, s, q, verdict).trace.reason;
  }

  function StepOf(pol: Policy, s: RouterState, op: Op): Step
    requires op.Call?
  {
    RouteStep(pol, s, op.q, op.verdict)
  }

  /** An engine fault, or a comparison that raised. */
  predicate Failed(pol: Policy, s: RouterState, op: Op, id: string) {
    && op.Call? && EngineRunBy(pol, s, op.q) == Some(id)
    && (op.q.engine.EngineFails? || ComparisonError(pol, s, op))
  }

  predicate ComparisonError(pol: Policy, s: RouterState, op: Op) {
    op.Call? && var step := StepOf(pol, s, op);
    step.trace.servedBy == DuckDb && step.trace.resultsMatch == None
  }

  predicate Diverged(pol: Policy, s: RouterState, op: Op, id: string) {
    op.Call? && EngineRunBy(pol, s, op.q) == Some(id) && StepOf(pol, s, op).trace.resultsMatch == Some(false)
  }

  predicate EngineServed(pol: Policy, s: RouterState, op: Op, id: string) {
    op.Call? && EngineRunBy(pol, s, op.q) == Some(id) && StepOf(pol, s, op).trace.servedBy == Engine
  }

  /** The engine returned a table. */
  predicate Executed(pol: Policy, s: RouterState, op: Op, id: string) {
    op.Call? && EngineRunBy(pol, s, op.q) == Some(id) && op.q.engine.EngineReturns?
  }

  predicate ReferenceServed(pol: Policy, s: RouterState, op: Op) {
    op.Call? && StepOf(pol, s, op).trace.servedBy == DuckDb
  }

  predicate ReferenceError(pol: Policy, s: RouterState, op: Op) {
    op.Call? && EngineRunBy(pol, s, op.q).Some? && op.q.engine.EngineReturns? && !StepOf(pol, s, op).outcome.Routed?
  }

  predicate CheckedServe(pol: Policy, s: RouterState, op: Op) {
    op.Call? && StepOf(pol, s, op).trace.servedBy == Engine && StepOf(pol, s, op).trace.crossChecked
  }

  predicate WasRefused(pol: Policy, s: RouterState, op: Op) {
    op.Call? && StepOf(pol, s, op).outcome == Refused
  }

  // ---- counts over a history ---------------------------------------------------------

  function One(b: bool): nat {
    if b then 1 else 0
  }

  datatype Totals = Totals(calls: nat, refused: nat, referenceServed: nat, comparisonErrors: nat, referenceErrors: nat,
                           checkedServes: nat, divergences: nat)

  predicate AnyDiverged(pol: Policy, s: RouterState, op: Op) {
    op.Call? && StepOf(pol, s, op).trace.resultsMatch == Some(false)
  }

  function Grown(pol: Policy, s: RouterState, op: Op, t: Totals): Totals {
    Totals(t.calls + One(op.Call?),
           t.refused + One(WasRefused(pol, s, op)),
           t.referenceServed + One(ReferenceServed(pol, s, op)),
           t.comparisonErrors + One(ComparisonError(pol, s, op)),
           t.referenceErrors + One(ReferenceError(pol, s, op)),
           t.checkedServes + One(CheckedServe(pol, s, op)),
           t.divergences + One(AnyDiverged(pol, s, op)))
  }

  function Count(pol: Policy, ops: seq<Op>): Totals {
    if ops == [] then Totals(0, 0, 0, 0, 0, 0, 0)
    else
      var t := Count(pol, ops[..|ops| - 1]);
      var s, op := After(pol, ops[..|ops| - 1]), ops[|ops| - 1];
      Grown(pol, s, op, t)
  }

  /** The counters account for every call and every cross-check. */
  ghost predicate Conserved(s: RouterState, t: Totals) {
    && s.counters.routed + s.counters.fellBack + t.referenceServed + t.refused == t.calls
    && t.referenceServed == s.counters.mismatch + t.comparisonErrors
    && s.counters.mismatch == t.divergences
    && s.counters.crossChecked == t.checkedServes + t.referenceServed
    && s.counters.crossCheckError == t.referenceErrors + t.comparisonErrors
    && |s.fallbackReasons| == s.counters.fellBack
  }

  /** What one step adds to the counters, told from its outcome and trace alone; `faults` is 1 when
      the reference query failed. */
  ghost predicate Accounted(s: RouterState, step: Step, faults: nat) {
    var c, d, t := s.counters, step.state.counters, step.trace;
    && d.routed == c.routed + One(t.servedBy == Engine)
    && d.fellBack == c.fellBack + One(step.outcome == FellBack)
    && d.mismatch == c.mismatch + One(t.resultsMatch == Some(false))
    && d.crossChecked == c.crossChecked + One(t.servedBy == DuckDb) + One(t.servedBy == Engine && t.crossChecked)
    && d.crossCheckError == c.crossCheckError + faults + One(t.servedBy == DuckDb && t.resultsMatch == None)
    && |step.state.fallbackReasons| == |s.fallbackReasons| + One(step.outcome == FellBack)
    && (step.outcome.Routed? <==> t.servedBy != Nobody)
    && (t.resultsMatch == Some(false) ==> t.servedBy == DuckDb)
    && (t.servedBy == DuckDb ==> t.resultsMatch == None || t.resultsMatch == Some(false))
  }

  lemma FallBackAccounted(pol: Policy, s: RouterState, t: Trace, reason: string, matched: bool)
    requires t.servedBy == Nobody && t.resultsMatch == None
    ensures Accounted(s, FallBack(pol, s, t, reason, matched), 0)
    ensures !FallBack(pol, s, t, reason, matched).outcome.Routed?
    ensures FallBack(pol, s, t, reason, matched).outcome == Refused ==> pol.mode == BespokeOnly
  {
  }

  lemma CheckedAccounted(pol: Policy, s: RouterState, b: Binding, q: Query, table: Result, verdict: bool)
    ensures
      var step := Checked(pol, s, b, q, table, verdict);
      && Accounted(s, step, One(!step.outcome.Routed?))
      && (step.outcome == Refused ==> pol.mode == BespokeOnly)
  {
  }

  lemma MatchedAccounted(pol: Policy, s: RouterState, b: Binding, q: Query, verdict: bool)
    ensures
      var step := Matched(pol, s, b, q, verdict);
      var ran := Runs(s, b, q);
      && Accounted(s, step, One(ran && q.engine.EngineReturns? && !step.outcome.Routed?))
      && (step.outcome == Refused ==> pol.mode == BespokeOnly)
  {
    var guards := GuardStack(s, b, q);
    if !GuardsPass(guards) {
      FallBackAccounted(pol, s, NEW_TRACE, LineOf(guards[PassedBefore(guards)].0, guards[PassedBefore(guards)].1).detail, true);
    } else if !q.bound {
      FallBackAccounted(pol, s, NEW_TRACE, "placeholder binding failed (constant/structure mismatch)", true);
    } else if q.engine.EngineFails? {
      FallBackAccounted(pol, FailureRecorded(pol, s, b.templateId), NEW_TRACE, "engine error: " + q.engine.message, true);
    } else {
      CheckedAccounted(pol, s, b, q, q.engine.table, verdict);
    }
  }

  lemma CallAccounted(pol: Policy, s: RouterState, op: Op)
    requires op.Call?
    ensures Accounted(s, StepOf(pol, s, op), One(ReferenceError(pol, s, op)))
    ensures WasRefused(pol, s, op) ==> pol.mode == BespokeOnly
  {
    var q := op.q;
    match Candidate(pol, s, q)
    case Some(b) => MatchedAccounted(pol, s, b, q, op.verdict);
    case None =>
      var reason := NoCandidate(pol, s, q, op.verdict);
      FallBackAccounted(pol, s, NEW_TRACE, reason, false);
  }

  /** One more call, told from its outcome and trace alone. */
  function Tallied(t: Totals, step: Step, faults: nat): Totals {
    Totals(t.calls + 1,
           t.refused + One(step.outcome == Refused),
           t.referenceServed + One(step.trace.servedBy == DuckDb),
           t.comparisonErrors + One(step.trace.servedBy == DuckDb && step.trace.resultsMatch == None),
           t.referenceErrors + faults,
           t.checkedServes + One(step.trace.servedBy == Engine && step.trace.crossChecked),
           t.divergences + One(step.trace.resultsMatch == Some(false)))
  }

  lemma Balanced(s: RouterState, step: Step, faults: nat, t: Totals)
    requires Conserved(s, t) && Accounted(s, step, faults)
    ensures Conserved(step.state, Tallied(t, step, faults))
  {
  }

  lemma ConservedStep(pol: Policy, s: RouterState, op: Op, t: Totals)
    requires Conserved(s, t)
    ensures Conserved(Apply(pol, s, op), Grown(pol, s, op, t))
    ensures WasRefused(pol, s, op) ==> pol.mode == BespokeOnly
  {
    if op.Call? {
      CallAccounted(pol, s, op);
      Balanced(s, StepOf(pol, s, op), One(ReferenceError(pol, s, op)), t);
    }
  }

  /** Conservation over every run and in every mode: calls are routed, fell back, were served from
      the reference, or (in the test mode only) refused; every check and every fallback is counted
      once. */
  lemma {:induction false} CountersConserved(pol: Policy, ops: seq<Op>)
    ensures Conserved(After(pol, ops), Count(pol, ops))
    ensures pol.mode != BespokeOnly ==> Count(pol, ops).refused == 0
    decreases |ops|
  {
    if ops != [] {
      CountersConserved(pol, ops[..|ops| - 1]);
      ConservedStep(pol, After(pol, ops[..|ops| - 1]), ops[|ops| - 1], Count(pol, ops[..|ops| - 1]));
    }
  }

  // ---- quarantine and breaker ---------------------------------------------------------------

  /** Failures of a template since its engine last served. */
  function FailuresSince(pol: Policy, ops: seq<Op>, id: string): nat {
    if ops == [] then 0
    else
      var n := FailuresSince(pol, ops[..|ops| - 1], id);
      var s, op := After(pol, ops[..|ops| - 1]), ops[|ops| - 1];
      if Failed(pol, s, op, id) then n + 1 else if EngineServed(pol, s, op, id) then 0 else n
  }

  /** The template diverged at some point, or its failures in a row reached the threshold. */
  function Sidelined(pol: Policy, ops: seq<Op>, id: string): bool {
    ops != [] &&
    (|| Sidelined(pol, ops[..|ops| - 1], id)
     || Diverged(pol, After(pol, ops[..|ops| - 1]), ops[|ops| - 1], id)
     || (Failed(pol, After(pol, ops[..|ops| - 1]), ops[|ops| - 1], id) && FailuresSince(pol, ops, id) >= pol.breakerThreshold))
  }

  /** What one step does to one template, told from the step's classification. */
  ghost predicate Moved(pol: Policy, s: RouterState, s2: RouterState, id: string, failed: bool, served: bool, diverged: bool, executed: bool) {
    var n := Get(s.failures, id);
    && Get(s2.failures, id) == (if failed then n + 1 else if served then 0 else n)
    && (id in s2.registry.quarantined <==>
        id in s.registry.quarantined || diverged || (failed && n + 1 >= pol.breakerThreshold))
    && Get(s2.execCounts, id) == Get(s.execCounts, id) + One(executed)
  }

  lemma FallBackMoves(pol: Policy, s: RouterState, t: Trace, reason: string, matched: bool, id: string)
    ensures Moved(pol, s, FallBack(pol, s, t, reason, matched).state, id, false, false, false, false)
    ensures FallBack(pol, s, t, reason, matched).trace == t.(path := Fallback, reason := reason)
  {
  }

  /** The check moves no template but its own. */
  lemma CheckedMovesOthers(pol: Policy, s: RouterState, b: Binding, q: Query, table: Result, verdict: bool, id: string)
    requires id != b.templateId
    ensures Moved(pol, s, Checked(pol, s, b, q, table, verdict).state, id, false, false, false, false)
  {
  }

  lemma CheckedMoves(pol: Policy, s: RouterState, b: Binding, q: Query, table: Result, verdict: bool)
    ensures
      var step := Checked(pol, s, b, q, table, verdict);
      var t := step.trace;
      Moved(pol, s, step.state, b.templateId, t.servedBy == DuckDb && t.resultsMatch == None,
            t.servedBy == Engine, t.resultsMatch == Some(false), true)
  {
  }

  lemma MatchedMoves(pol: Policy, s: RouterState, b: Binding, q: Query, verdict: bool, id: string)
    ensures
      var step := Matched(pol, s, b, q, verdict);
      var t, ran := step.trace, Runs(s, b, q) && id == b.templateId;
      Moved(pol, s, step.state, id,
            ran && (q.engine.EngineFails? || (t.servedBy == DuckDb && t.resultsMatch == None)),
            ran && t.servedBy == Engine, ran && t.resultsMatch == Some(false), ran && q.engine.EngineReturns?)
  {
    var guards := GuardStack(s, b, q);
    if !GuardsPass(guards) {
      FallBackMoves(pol, s, NEW_TRACE, LineOf(guards[PassedBefore(guards)].0, guards[PassedBefore(guards)].1).detail, true, id);
    } else if !q.bound {
      FallBackMoves(pol, s, NEW_TRACE, "placeholder binding failed (constant/structure mismatch)", true, id);
    } else if q.engine.EngineFails? {
    } else if id == b.templateId {
      CheckedMoves(pol, s, b, q, q.engine.table, verdict);
    } else {
      CheckedMovesOthers(pol, s, b, q, q.engine.table, verdict, id);
    }
  }

  /** How one step moves the failure count, the quarantine and the execution count of one template. */
  lemma BreakerStep(pol: Policy, s: RouterState, op: Op, id: string)
    ensures Moved(pol, s, Apply(pol, s, op), id, Failed(pol, s, op, id), EngineServed(pol, s, op, id),
                  Diverged(pol, s, op, id), Executed(pol, s, op, id))
  {
    if op.Call? {
      var q := op.q;
      match Candidate(pol, s, q)
      case Some(b) => MatchedMoves(pol, s, b, q, op.verdict, id);
      case None =>
        var reason := NoCandidate(pol, s, q, op.verdict);
        FallBackMoves(pol, s, NEW_TRACE, reason, false, id);
    }
  }

  /** The recorded count is the failures since the last success, and a template is quarantined
      exactly when it diverged or its count reached the threshold. */
  lemma {:induction false} QuarantineExplained(pol: Policy, ops: seq<Op>, id: string)
    ensures Get(After(pol, ops).failures, id) == FailuresSince(pol, ops, id)
    ensures id in After(pol, ops).registry.quarantined <==> Sidelined(pol, ops, id)
    decreases |ops|
  {
    if ops != [] {
      QuarantineExplained(pol, ops[..|ops| - 1], id);
      BreakerStep(pol, After(pol, ops[..|ops| - 1]), ops[|ops| - 1], id);
    }
  }

  /** The template's engine ran, and where the comparison is exact its table does not agree with DuckDB's. */
  ghost predicate Disagreed(pol: Policy, s: RouterState, op: Op, id: string) {
    && op.Call? && EngineRunBy(pol, s, op.q) == Some(id)
    && var q := op.q;
       && Comparable(q) && q.comparable && q.engine.EngineReturns? && q.reference.Some?
       && (ExactComparison(q.engine.table, q.reference.value, q.ordered, q.orderKeys, FLOAT_TOL, None, None) ==>
             !Agree(q.engine.table, q.reference.value, q.ordered, q.orderKeys, FLOAT_TOL, None, None))
  }

  /** The k-th operation sidelines the template: its engine disagreed with DuckDB, or it failed and its
      failures in a row reached the threshold. */
  ghost predicate Cause(pol: Policy, ops: seq<Op>, k: nat, id: string)
    requires k < |ops|
  {
    || Disagreed(pol, After(pol, ops[..k]), ops[k], id)
    || (Failed(pol, After(pol, ops[..k]), ops[k], id) && FailuresSince(pol, ops[..k + 1], id) >= pol.breakerThreshold)
  }

  lemma DivergedDisagreed(pol: Policy, s: RouterState, op: Op, id: string)
    requires Diverged(pol, s, op, id) && CompareHonestly(pol, s, op)
    ensures Disagreed(pol, s, op, id)
  {
    assert !op.verdict;
  }

  lemma CauseStays(pol: Policy, before: seq<Op>, ops: seq<Op>, k: nat, id: string)
    requires k < |before| <= |ops| && before == ops[..|before|] && Cause(pol, before, k, id)
    ensures Cause(pol, ops, k, id)
  {
    assert before[..k] == ops[..k] && before[..k + 1] == ops[..k + 1] && before[k] == ops[k];
  }

  lemma CauseIsLast(pol: Policy, ops: seq<Op>, id: string)
    requires ops != [] && Sidelined(pol, ops, id) && !Sidelined(pol, ops[..|ops| - 1], id) && HonestHistory(pol, ops)
    ensures Cause(pol, ops, |ops| - 1, id)
  {
    var n := |ops| - 1;
    assert ops[..n + 1] == ops;
    if Diverged(pol, After(pol, ops[..n]), ops[n], id) {
      DivergedDisagreed(pol, After(pol, ops[..n]), ops[n], id);
    }
  }

  lemma {:induction false} SidelinedCause(pol: Policy, ops: seq<Op>, id: string) returns (k: nat)
    requires Sidelined(pol, ops, id) && HonestHistory(pol, ops)
    ensures k < |ops| && Cause(pol, ops, k, id)
    decreases |ops|
  {
    k := |ops| - 1;
    if Sidelined(pol, ops[..|ops| - 1], id) {
      k := SidelinedCause(pol, ops[..|ops| - 1], id);
      CauseStays(pol, ops[..|ops| - 1], ops, k, id);
    } else {
      CauseIsLast(pol, ops, id);
    }
  }

  /** Over every run whose comparisons were made as the router makes them, a template is sidelined only
      if its engine's table really disagreed with DuckDB's (where the comparison is exact), or its
      failures in a row reached the threshold. */
  lemma QuarantineEarned(pol: Policy, ops: seq<Op>, id: string)
    requires HonestHistory(pol, ops) && id in After(pol, ops).registry.quarantined
    ensures exists k | 0 <= k < |ops| :: Cause(pol, ops, k, id)
  {
    QuarantineExplained(pol, ops, id);
    var k := SidelinedCause(pol, ops, id);
  }

  /** DuckDB's own answer, returned by the engine and compared, sidelines the template exactly if it holds
      a NaN. */
  lemma OwnAnswerSidelined(pol: Policy, s: RouterState, op: Op, id: string)
    requires op.Call? && EngineRunBy(pol, s, op.q) == Some(id) && CompareHonestly(pol, s, op)
    requires StepOf(pol, s, op).trace.resultsMatch.Some?
    requires op.q.engine.EngineReturns? && op.q.reference == Some(op.q.engine.table)
    ensures op.verdict <==> AllNaNFree(op.q.engine.table.Rows())
    ensures Diverged(pol, s, op, id) <==> !AllNaNFree(op.q.engine.table.Rows())
  {
    EqualsItselfUnlessNaN(op.q.engine.table, op.q.ordered, op.q.orderKeys, FLOAT_TOL, None, None);
  }

  /** The count never passes the threshold, and a template at the threshold is quarantined. */
  lemma {:induction false} BreakerBound(pol: Policy, ops: seq<Op>, id: string)
    requires pol.breakerThreshold >= 1
    ensures FailuresSince(pol, ops, id) <= pol.breakerThreshold
    ensures FailuresSince(pol, ops, id) == pol.breakerThreshold ==> id in After(pol, ops).registry.quarantined
    decreases |ops|
  {
    if ops != [] {
      var before, op := ops[..|ops| - 1], ops[|ops| - 1];
      BreakerBound(pol, before, id);
      QuarantineExplained(pol, before, id);
      QuarantineExplained(pol, ops, id);
      BreakerStep(pol, After(pol, before), op, id);
    }
  }

  lemma {:induction false} SidelinedForGood(pol: Policy, ops: seq<Op>, i: nat, id: string)
    requires i <= |ops| && Sidelined(pol, ops[..i], id)
    ensures Sidelined(pol, ops, id)
    decreases |ops|
  {
    if i < |ops| {
      assert ops[..|ops| - 1][..i] == ops[..i];
      SidelinedForGood(pol, ops[..|ops| - 1], i, id);
    } else {
      assert ops[..i] == ops;
    }
  }

  /** Once a template is sidelined no later statement of the run reaches its engine. */
  lemma NeverRunsAgain(pol: Policy, ops: seq<Op>, i: nat, id: string)
    requires i < |ops| && Sidelined(pol, ops[..i], id) && ops[|ops| - 1].Call?
    ensures EngineRunBy(pol, After(pol, ops[..|ops| - 1]), ops[|ops| - 1].q) != Some(id)
  {
    var before := ops[..|ops| - 1];
    assert before[..i] == ops[..i];
    SidelinedForGood(pol, before, i, id);
    QuarantineExplained(pol, before, id);
  }

  // ---- fail-closed -----------------------------------------------------------------------------

  /** Engine executions of a template so far. */
  function Executions(pol: Policy, ops: seq<Op>, id: string): nat {
    if ops == [] then 0
    else
      Executions(pol, ops[..|ops| - 1], id) + One(Executed(pol, After(pol, ops[..|ops| - 1]), ops[|ops| - 1], id))
  }

  lemma {:induction false} ExecutionsCounted(pol: Policy, ops: seq<Op>, id: string)
    ensures Get(After(pol, ops).execCounts, id) == Executions(pol, ops, id)
    decreases |ops|
  {
    if ops != [] {
      ExecutionsCounted(pol, ops[..|ops| - 1], id);
      BreakerStep(pol, After(pol, ops[..|ops| - 1]), ops[|ops| - 1], id);
    }
  }

  /** Burn-in: with sampling on, none of a template's first verifyFirstN executions is served
      without a check that found it equal. */
  lemma BurnInChecked(pol: Policy, ops: seq<Op>, id: string)
    requires pol.mode == Sampled && pol.crossCheckRate > 0.0
    requires ops != [] && ops[|ops| - 1].Call? && ops[|ops| - 1].q.connected
    requires Executed(pol, After(pol, ops[..|ops| - 1]), ops[|ops| - 1], id)
    requires Executions(pol, ops, id) <= pol.verifyFirstN
    ensures
      var step := StepOf(pol, After(pol, ops[..|ops| - 1]), ops[|ops| - 1]);
      && (step.trace.servedBy == Engine ==> step.trace.crossChecked && step.trace.resultsMatch == Some(true))
      && (step.trace.crossChecked <==> ops[|ops| - 1].q.reference.Some?)
      && (ops[|ops| - 1].q.reference.None? ==> step.outcome == FellBack)
  {
    ExecutionsCounted(pol, ops[..|ops| - 1], id);
  }

  /** A step serves an engine result after a check only if the comparison found it equal, and the
      reference only if there is one. */
  ghost predicate ServesOnlyEqual(pol: Policy, q: Query, verdict: bool, step: Step) {
    var t := step.trace;
    && (t.servedBy == Engine && t.crossChecked ==>
          verdict && q.comparable && q.reference.Some? && q.engine.EngineReturns? && step.outcome == Routed(q.engine.table))
    && (t.servedBy == DuckDb ==> q.reference.Some? && step.outcome == Routed(q.reference.value))
    && (step.outcome.Routed? ==> t.servedBy != Nobody)
    && (pol.mode == Sampled && pol.crossCheckRate >= 1.0 && q.connected && t.servedBy == Engine ==> t.crossChecked)
  }

  lemma FallBackServesOnlyEqual(pol: Policy, s: RouterState, q: Query, verdict: bool, t: Trace, reason: string, matched: bool)
    requires t.servedBy == Nobody
    ensures ServesOnlyEqual(pol, q, verdict, FallBack(pol, s, t, reason, matched))
  {
  }

  lemma CheckedServesOnlyEqual(pol: Policy, s: RouterState, b: Binding, q: Query, verdict: bool)
    requires q.engine.EngineReturns?
    ensures ServesOnlyEqual(pol, q, verdict, Checked(pol, s, b, q, q.engine.table, verdict))
  {
  }

  lemma MatchedServesOnlyEqual(pol: Policy, s: RouterState, b: Binding, q: Query, verdict: bool)
    ensures ServesOnlyEqual(pol, q, verdict, Matched(pol, s, b, q, verdict))
  {
    if Runs(s, b, q) && q.engine.EngineReturns? {
      CheckedServesOnlyEqual(pol, s, b, q, verdict);
    }
  }

  /** Whenever an engine result is served after a check, the comparison found it equal; with a rate
      of at least 1 and a connection there is no other way to serve one. */
  lemma EngineServesOnlyEqual(pol: Policy, s: RouterState, q: Query, verdict: bool)
    ensures ServesOnlyEqual(pol, q, verdict, RouteStep(pol, s, q, verdict))
  {
    match Candidate(pol, s, q)
    case Some(b) => MatchedServesOnlyEqual(pol, s, b, q, verdict);
    case None =>
      var reason := NoCandidate(pol, s, q, verdict);
      FallBackServesOnlyEqual(pol, s, q, verdict, NEW_TRACE, reason, false);
  }

  /** With routing off, or with nothing registered, every statement goes to DuckDB. */
  lemma InactiveRoutesNothing(pol: Policy, s: RouterState, q: Query, verdict: bool)
    requires !pol.RoutingActive() || s.registry.byNorm == map[]
    ensures RouteStep(pol, s, q, verdict).outcome == FellBack
    ensures EngineRunBy(pol, s, q).None?
  {
  }

  /** A statement whose template reads a changed table is never served by its engine. */
  lemma DirtyNeverRuns(pol: Policy, s: RouterState, q: Query, b: Binding)
    requires q.normalized.Some? && s.registry.Match(q.normalized.value) == Some(b) && s.registry.IsDirty(b)
    ensures EngineRunBy(pol, s, q).None?
  {
    assert GuardStack(s, b, q)[2].1.Fails?;
  }
}
