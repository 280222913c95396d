/** What decides, over every run, whether an engine is reached, whether its answer is checked, and what is
    recorded of a statement that is not served. */
module RouterLaws {
  import opened Wrappers
  import opened Verdict
  import opened Guards
  import opened Registry
  import opened Router
  import opened RouterRuns

  // ---- sampling ---------------------------------------------------------------------

  /** The statement's n-th execution of its template is to be checked. */
  predicate CheckDue(pol: Policy, n: int, q: Query) {
    && pol.mode == Sampled && pol.crossCheckRate > 0.0 && q.connected
    && (n <= pol.verifyFirstN || pol.crossCheckRate >= 1.0 || q.draw < pol.crossCheckRate)
  }

  lemma CheckedExactly(pol: Policy, s: RouterState, b: Binding, q: Query, table: Result, verdict: bool)
    requires pol.RoutingActive()
    ensures
      var step, due := Checked(pol, s, b, q, table, verdict), CheckDue(pol, Get(s.execCounts, b.templateId) + 1, q);
      && (step.trace.crossChecked <==> due && q.reference.Some?)
      && (due && q.reference.None? ==> step.outcome == FellBack)
      && (!due ==> step.outcome == Routed(table) && step.trace.servedBy == Engine && step.trace.resultsMatch.None?)
      && (due && q.reference.Some? && q.comparable && !verdict ==>
            step.outcome == Routed(q.reference.value) && step.trace.servedBy == DuckDb && step.trace.resultsMatch == Some(false))
  {
  }

  lemma ExecutedStep(pol: Policy, s: RouterState, op: Op, id: string)
    requires Executed(pol, s, op, id)
    ensures pol.RoutingActive()
    ensures exists b: Binding :: b.templateId == id && StepOf(pol, s, op) == Checked(pol, s, b, op.q, op.q.engine.table, op.verdict)
  {
    var b := Candidate(pol, s, op.q).value;
    assert b.templateId == id && StepOf(pol, s, op) == Checked(pol, s, b, op.q, op.q.engine.table, op.verdict);
  }

  /** Over every run: an engine's answer is checked exactly if sampling is on with a positive rate, there is
      a connection and DuckDB answers, and it is one of the template's first executions, the rate is full, or
      the draw falls below it. If DuckDB does not answer the statement falls back; an answer that is not to
      be checked is served. */
  lemma SampledExactly(pol: Policy, ops: seq<Op>, id: string)
    requires ops != [] && Executed(pol, After(pol, ops[..|ops| - 1]), ops[|ops| - 1], id)
    ensures
      var q, step := ops[|ops| - 1].q, StepOf(pol, After(pol, ops[..|ops| - 1]), ops[|ops| - 1]);
      var due := CheckDue(pol, Executions(pol, ops, id), q);
      && (step.trace.crossChecked <==> due && q.reference.Some?)
      && (due && q.reference.None? ==> step.outcome == FellBack)
      && (!due ==> step.outcome == Routed(q.engine.table) && step.trace.servedBy == Engine && step.trace.resultsMatch.None?)
      && (due && q.reference.Some? && q.comparable && !ops[|ops| - 1].verdict ==>
            step.outcome == Routed(q.reference.value) && step.trace.servedBy == DuckDb && step.trace.resultsMatch == Some(false))
  {
    var before, op := ops[..|ops| - 1], ops[|ops| - 1];
    var s := After(pol, before);
    ExecutionsCounted(pol, before, id);
    ExecutedStep(pol, s, op, id);
    var b: Binding :| b.templateId == id && StepOf(pol, s, op) == Checked(pol, s, b, op.q, op.q.engine.table, op.verdict);
    CheckedExactly(pol, s, b, op.q, op.q.engine.table, op.verdict);
  }

  /** An answer that is checked and does not agree with DuckDB's, the comparison being exact and made as the
      router makes it, is not served: DuckDB's is, and the template is sidelined. */
  lemma DivergenceCaught(pol: Policy, ops: seq<Op>, id: string)
    requires ops != [] && Executed(pol, After(pol, ops[..|ops| - 1]), ops[|ops| - 1], id) && HonestHistory(pol, ops)
    requires CheckDue(pol, Executions(pol, ops, id), ops[|ops| - 1].q)
    requires
      var q := ops[|ops| - 1].q;
      && q.reference.Some? && q.comparable && Comparable(q)
      && ExactComparison(q.engine.table, q.reference.value, q.ordered, q.orderKeys, FLOAT_TOL, None, None)
      && !Agree(q.engine.table, q.reference.value, q.ordered, q.orderKeys, FLOAT_TOL, None, None)
    ensures StepOf(pol, After(pol, ops[..|ops| - 1]), ops[|ops| - 1]).outcome == Routed(ops[|ops| - 1].q.reference.value)
    ensures Sidelined(pol, ops, id) && id in After(pol, ops).registry.quarantined
  {
    SampledExactly(pol, ops, id);
    var before, op := ops[..|ops| - 1], ops[|ops| - 1];
    ComparedHasVerdict(pol, After(pol, before), op, id);
    assert CompareHonestly(pol, After(pol, before), op);
    QuarantineExplained(pol, ops, id);
  }

  lemma ComparedHasVerdict(pol: Policy, s: RouterState, op: Op, id: string)
    requires Executed(pol, s, op, id) && StepOf(pol, s, op).trace.crossChecked && op.q.comparable
    ensures StepOf(pol, s, op).trace.resultsMatch == Some(op.verdict)
  {
    ExecutedStep(pol, s, op, id);
    var b: Binding :| b.templateId == id && StepOf(pol, s, op) == Checked(pol, s, b, op.q, op.q.engine.table, op.verdict);
  }

  // ---- when an engine is reached ---------------------------------------------------------------

  /** Everything the registry does not decide lets the statement through. */
  predicate LetThrough(pol: Policy, q: Query) {
    && pol.enabled && pol.mode != Off
    && q.engineReady.Passes? && q.selectOnly.Passes? && q.schemaMatch.Passes? && q.placeholderArity.Passes?
    && q.bound
  }

  lemma GuardsInOrder(s: RouterState, b: Binding, q: Query)
    ensures
      var guards := GuardStack(s, b, q);
      && |guards| == 5 && guards[0].1 == q.engineReady && guards[1].1 == q.selectOnly
      && guards[3].1 == q.schemaMatch && guards[4].1 == q.placeholderArity
      && (guards[2].1.Passes? <==> b.tables !! s.registry.dirtyTables)
      && (!guards[2].1.Passes? ==> guards[2].1 == Fails("a bound table was modified since ingest"))
  {
    assert b.tables !! s.registry.dirtyTables <==> b.tables * s.registry.dirtyTables == {} by {
      assert forall x | x in b.tables && x in s.registry.dirtyTables :: x in b.tables * s.registry.dirtyTables;
    }
  }

  lemma GuardsPassExactly(s: RouterState, b: Binding, q: Query)
    ensures GuardsPass(GuardStack(s, b, q)) <==>
      && q.engineReady.Passes? && q.selectOnly.Passes? && b.tables !! s.registry.dirtyTables
      && q.schemaMatch.Passes? && q.placeholderArity.Passes?
  {
    GuardsInOrder(s, b, q);
    var guards := GuardStack(s, b, q);
    assert GuardsPass(guards) <==>
      guards[0].1.Passes? && guards[1].1.Passes? && guards[2].1.Passes? && guards[3].1.Passes? && guards[4].1.Passes?;
  }

  /** A statement runs a template's engine exactly if routing is on, its key is registered for that template,
      the template is not sidelined and reads no changed table, every other guard passes, and it binds. */
  lemma EngineRunsExactly(pol: Policy, s: RouterState, q: Query, id: string)
    ensures EngineRunBy(pol, s, q) == Some(id) <==>
      && LetThrough(pol, q) && q.normalized.Some? && q.normalized.value in s.registry.byNorm
      && var b := s.registry.byNorm[q.normalized.value];
         b.templateId == id && id !in s.registry.quarantined && b.tables !! s.registry.dirtyTables
  {
    if q.normalized.Some? && q.normalized.value in s.registry.byNorm {
      assert s.registry.byNorm != map[];
      GuardsPassExactly(s, s.registry.byNorm[q.normalized.value], q);
    }
  }

  predicate SameTables(s: RouterState, s2: RouterState) {
    s2.registry.byNorm == s.registry.byNorm && s2.registry.dirtyTables == s.registry.dirtyTables
  }

  /** The step records the reason exactly if the statement fell back for it. */
  predicate Records(s: RouterState, step: Step, reason: string) {
    step.state.fallbackReasons[reason] == s.fallbackReasons[reason] + One(step.outcome == FellBack && step.trace.reason == reason)
  }

  lemma FallBackLeaves(pol: Policy, s: RouterState, t: Trace, why: string, matched: bool, reason: string)
    ensures SameTables(s, FallBack(pol, s, t, why, matched).state)
    ensures Records(s, FallBack(pol, s, t, why, matched), reason)
  {
  }

  lemma CheckedLeaves(pol: Policy, s: RouterState, b: Binding, q: Query, table: Result, verdict: bool, reason: string)
    ensures SameTables(s, Checked(pol, s, b, q, table, verdict).state)
    ensures Records(s, Checked(pol, s, b, q, table, verdict), reason)
  {
    var id := b.templateId;
    var t := NEW_TRACE.(path := Bespoke, reason := "template match", template := Some(id));
    var s1 := s.(execCounts := s.execCounts[id := Get(s.execCounts, id) + 1]);
    if ShouldCrossCheck(pol, Get(s1.execCounts, id), q.draw) && q.connected {
      match q.reference
      case None => FallBackLeaves(pol, ErrorCounted(s1), t, "cross-check reference error: " + q.referenceError, true, reason);
      case Some(reference) => ComparedLeaves(pol, s1, t.(crossChecked := true), id, q, table, reference, verdict, reason);
    }
  }

  lemma ComparedLeaves(pol: Policy, s: RouterState, t: Trace, id: string, q: Query, table: Result, reference: Result,
                       verdict: bool, reason: string)
    requires t.path == Bespoke
    ensures SameTables(s, Compared(pol, s, t, id, q, table, reference, verdict).state)
    ensures Records(s, Compared(pol, s, t, id, q, table, reference, verdict), reason)
  {
  }

  lemma MatchedLeaves(pol: Policy, s: RouterState, b: Binding, q: Query, verdict: bool, reason: string)
    ensures SameTables(s, Matched(pol, s, b, q, verdict).state)
    ensures Records(s, Matched(pol, s, b, q, verdict), reason)
  {
    var guards := GuardStack(s, b, q);
    if !GuardsPass(guards) {
      FallBackLeaves(pol, s, NEW_TRACE, LineOf(guards[PassedBefore(guards)].0, guards[PassedBefore(guards)].1).detail, true, reason);
    } else if !q.bound {
      FallBackLeaves(pol, s, NEW_TRACE, "placeholder binding failed (constant/structure mismatch)", true, reason);
    } else if q.engine.EngineFails? {
      FallBackLeaves(pol, FailureRecorded(pol, s, b.templateId), NEW_TRACE, "engine error: " + q.engine.message, true, reason);
    } else {
      CheckedLeaves(pol, s, b, q, q.engine.table, verdict, reason);
    }
  }

  /** A statement changes neither the bindings nor the dirty tables, and records why it fell back. */
  lemma CallLeaves(pol: Policy, s: RouterState, q: Query, verdict: bool, reason: string)
    ensures SameTables(s, RouteStep(pol, s, q, verdict).state)
    ensures Records(s, RouteStep(pol, s, q, verdict), reason)
  {
    match Candidate(pol, s, q)
    case None =>
      var why := NoCandidate(pol, s, q, verdict);
      FallBackLeaves(pol, s, NEW_TRACE, why, false, reason);
    case Some(b) => MatchedLeaves(pol, s, b, q, verdict, reason);
  }

  /** The operation clears the table's mark. */
  predicate Clears(op: Op, table: string) {
    op.ClearDirty? && (op.cleared.None? || table in op.cleared.value)
  }

  /** The k-th operation marked the table changed, and none since cleared it. */
  predicate MarkedSince(ops: seq<Op>, k: nat, table: string) {
    && k < |ops| && ops[k].MarkDirty? && table in ops[k].tables
    && forall l | k < l < |ops| :: !Clears(ops[l], table)
  }

  predicate Changed(ops: seq<Op>, table: string) {
    exists k | 0 <= k < |ops| :: MarkedSince(ops, k, table)
  }

  lemma ChangedNext(ops: seq<Op>, table: string)
    requires ops != []
    ensures
      var op := ops[|ops| - 1];
      Changed(ops, table) <==>
        (op.MarkDirty? && table in op.tables) || (Changed(ops[..|ops| - 1], table) && !Clears(op, table))
  {
    var n := |ops| - 1;
    forall k | 0 <= k < n ensures MarkedSince(ops, k, table) <==> MarkedSince(ops[..n], k, table) && !Clears(ops[n], table) {
    }
    assert MarkedSince(ops, n, table) <==> ops[n].MarkDirty? && table in ops[n].tables;
  }

  /** Over every run a table is dirty exactly if it was marked and not cleared since. */
  lemma {:induction false} DirtyExactly(pol: Policy, ops: seq<Op>, table: string)
    ensures table in After(pol, ops).registry.dirtyTables <==> Changed(ops, table)
    decreases |ops|
  {
    if ops != [] {
      var before, op := ops[..|ops| - 1], ops[|ops| - 1];
      DirtyExactly(pol, before, table);
      ChangedNext(ops, table);
      if op.Call? {
        CallLeaves(pol, After(pol, before), op.q, op.verdict, "");
      }
    }
  }

  /** The operation decides what is bound under the key. */
  predicate Rebinds(op: Op, key: string) {
    (op.Register? && op.b.normalizedSql == key) || op == Unregister(key)
  }

  /** The k-th operation registered the binding under the key, and none since rebound it. */
  predicate BoundSince(ops: seq<Op>, k: nat, key: string, b: Binding) {
    && k < |ops| && ops[k] == Register(b) && b.normalizedSql == key
    && forall l | k < l < |ops| :: !Rebinds(ops[l], key)
  }

  predicate Latest(ops: seq<Op>, key: string, b: Binding) {
    exists k | 0 <= k < |ops| :: BoundSince(ops, k, key, b)
  }

  lemma LatestNext(ops: seq<Op>, key: string, b: Binding)
    requires ops != []
    ensures
      var op := ops[|ops| - 1];
      Latest(ops, key, b) <==>
        (op == Register(b) && b.normalizedSql == key) || (Latest(ops[..|ops| - 1], key, b) && !Rebinds(op, key))
  {
    var n := |ops| - 1;
    forall k | 0 <= k < n ensures BoundSince(ops, k, key, b) <==> BoundSince(ops[..n], k, key, b) && !Rebinds(ops[n], key) {
    }
    assert BoundSince(ops, n, key, b) <==> ops[n] == Register(b) && b.normalizedSql == key;
  }

  /** Over every run what is bound under a key is what was last registered there, if not removed since. */
  lemma {:induction false} RegisteredExactly(pol: Policy, ops: seq<Op>, key: string, b: Binding)
    ensures
      var bound := After(pol, ops).registry.byNorm;
      key in bound && bound[key] == b <==> Latest(ops, key, b)
    decreases |ops|
  {
    if ops != [] {
      var before, op := ops[..|ops| - 1], ops[|ops| - 1];
      RegisteredExactly(pol, before, key, b);
      LatestNext(ops, key, b);
      if op.Call? {
        CallLeaves(pol, After(pol, before), op.q, op.verdict, "");
      }
    }
  }

  /** Told from the history alone: after a run a statement reaches a template's engine exactly if the binding
      last registered under its key is the template's, the template was not sidelined, none of its tables was
      marked and not cleared since, and the rest lets it through. */
  lemma ReachedExactly(pol: Policy, ops: seq<Op>, q: Query, id: string)
    ensures EngineRunBy(pol, After(pol, ops), q) == Some(id) <==>
      && LetThrough(pol, q) && q.normalized.Some? && !Sidelined(pol, ops, id)
      && exists b :: Latest(ops, q.normalized.value, b) && b.templateId == id && forall table | table in b.tables :: !Changed(ops, table)
  {
    var s := After(pol, ops);
    EngineRunsExactly(pol, s, q, id);
    QuarantineExplained(pol, ops, id);
    if q.normalized.Some? {
      var key := q.normalized.value;
      forall b ensures (key in s.registry.byNorm && s.registry.byNorm[key] == b) <==> Latest(ops, key, b) {
        RegisteredExactly(pol, ops, key, b);
      }
      forall table ensures table in s.registry.dirtyTables <==> Changed(ops, table) {
        DirtyExactly(pol, ops, table);
      }
    }
  }

  // ---- statements that are not served ------------------------------------------------------------

  /** A statement is refused exactly in the test mode, when a template matched and nothing was routed; any
      other that was not routed falls back. */
  lemma RefusedExactly(pol: Policy, s: RouterState, q: Query, verdict: bool)
    ensures
      var outcome := RouteStep(pol, s, q, verdict).outcome;
      outcome == Refused <==> pol.mode == BespokeOnly && Candidate(pol, s, q).Some? && !outcome.Routed?
  {
  }

  /** What a guard that did not pass is reported as. */
  function Reported(run: GuardRun): string {
    match run
    case Passes(detail) => detail
    case Fails(detail) => detail
    case Raises(message) => "guard raised: " + message
  }

  lemma FirstBlamed(guards: seq<(string, GuardRun)>, k: nat)
    requires k < |guards| && !guards[k].1.Passes? && forall i | 0 <= i < k :: guards[i].1.Passes?
    ensures PassedBefore(guards) == k
  {
  }

  /** The reason given is the first guard's that did not pass: ready, read-only, clean tables, schema, then
      placeholders. */
  lemma FirstGuardBlamed(pol: Policy, s: RouterState, q: Query, b: Binding, verdict: bool)
    requires Candidate(pol, s, q) == Some(b) && !GuardsPass(GuardStack(s, b, q))
    ensures RouteStep(pol, s, q, verdict).trace.reason ==
      if !q.engineReady.Passes? then Reported(q.engineReady)
      else if !q.selectOnly.Passes? then Reported(q.selectOnly)
      else if !(b.tables !! s.registry.dirtyTables) then "a bound table was modified since ingest"
      else if !q.schemaMatch.Passes? then Reported(q.schemaMatch)
      else Reported(q.placeholderArity)
  {
    var guards := GuardStack(s, b, q);
    GuardsInOrder(s, b, q);
    GuardsPassExactly(s, b, q);
    var k := PassedBefore(guards);
    FirstBlamed(guards, if !guards[0].1.Passes? then 0
                        else if !guards[1].1.Passes? then 1
                        else if !guards[2].1.Passes? then 2
                        else if !guards[3].1.Passes? then 3 else 4);
    assert RouteStep(pol, s, q, verdict).trace.reason == Reported(guards[k].1);
  }

  predicate FellBackFor(pol: Policy, s: RouterState, op: Op, reason: string) {
    op.Call? && StepOf(pol, s, op).outcome == FellBack && StepOf(pol, s, op).trace.reason == reason
  }

  /** Statements that fell back for a reason. */
  function FellBackCount(pol: Policy, ops: seq<Op>, reason: string): nat {
    if ops == [] then 0
    else
      FellBackCount(pol, ops[..|ops| - 1], reason)
      + One(FellBackFor(pol, After(pol, ops[..|ops| - 1]), ops[|ops| - 1], reason))
  }

  lemma ReasonRecorded(pol: Policy, s: RouterState, op: Op, reason: string)
    ensures Apply(pol, s, op).fallbackReasons[reason] == s.fallbackReasons[reason] + One(FellBackFor(pol, s, op, reason))
  {
    if op.Call? {
      CallLeaves(pol, s, op.q, op.verdict, reason);
    }
  }

  /** Over every run each reason is recorded as often as a statement fell back for it. */
  lemma {:induction false} ReasonsCounted(pol: Policy, ops: seq<Op>, reason: string)
    ensures After(pol, ops).fallbackReasons[reason] == FellBackCount(pol, ops, reason)
    decreases |ops|
  {
    if ops != [] {
      ReasonsCounted(pol, ops[..|ops| - 1], reason);
      ReasonRecorded(pol, After(pol, ops[..|ops| - 1]), ops[|ops| - 1], reason);
    }
  }
}
