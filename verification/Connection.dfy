/** The connection handle: what `execute` leaves to be fetched, and when the engines shared by a
    family of handles are released. */
module Connection {
  import opened Wrappers
  import opened Pairing
  import opened RowVerdict
  import opened Verdict
  import opened Registry
  import opened Router
  import opened RouterRuns
  import opened RouterLaws
  import opened Guards

  /** One statement handed to `execute`. */
  datatype Statement = Statement(
    readOnly: bool,
    query: Query,              // what its routing depends on
    direct: Option<Result>,    // what DuckDB answers when asked directly; None if it raises
    leftover: Option<Result>)  // what the schema guard's own queries leave open, if it runs
  {
    /** The router is always given the connection. */
    function Asked(): Query {
      query.(connected := true)
    }
  }

  datatype Finish = Blocked | Raised | Returned

  /** `current` is a result held in memory; `open` is the one open on the wrapped connection. */
  datatype HandleState = HandleState(current: Option<Result>, open: Option<Result>)
  {
    /** What the fetch methods read. */
    function Fetched(): Option<Result> {
      if current.Some? then current else open
    }
  }

  datatype Execution = Execution(finish: Finish, state: RouterState, handle: HandleState)

  function RunDirect(s: RouterState, h: HandleState, st: Statement): Execution {
    match st.direct
    case None => Execution(Raised, s, HandleState(h.current, None))
    case Some(t) => Execution(Returned, s, HandleState(None, Some(t)))
  }

  /** The statement's guards run as far as the schema guard, which queries the wrapped connection. */
  predicate SchemaGuardRuns(pol: Policy, s: RouterState, q: Query) {
    match Candidate(pol, s, q)
    case None => false
    case Some(b) => PassedBefore(GuardStack(s, b, q)) >= 3
  }

  /** The handle once the guards have run. */
  function AfterGuards(pol: Policy, s: RouterState, h: HandleState, st: Statement): HandleState {
    if SchemaGuardRuns(pol, s, st.Asked()) then h.(open := st.leftover) else h
  }

  /** One `execute`, given the verdict the comparison gives if it is made. */
  function ExecuteStep(pol: Policy, s: RouterState, h: HandleState, st: Statement, verdict: bool): Execution {
    if pol.blockWrites && !st.readOnly then Execution(Blocked, WriteBlocked(s), h)
    else if !pol.RoutingActive() then RunDirect(s, h, st)
    else
      var step := RouteStep(pol, s, st.Asked(), verdict);
      var h2 := AfterGuards(pol, s, h, st);
      match step.outcome
      case Refused => Execution(Raised, step.state, h2)
      case Routed(t) => Execution(Returned, step.state, h2.(current := Some(t)))
      case FellBack => RunDirect(step.state, h2, st)
  }

  // ---- everything handed back is defended ------------------------------------------

  /** A comparison's verdict implies agreement within the default tolerance. */
  ghost predicate Honest(st: Statement, verdict: bool) {
    && Comparable(st.query)
    && (var q := st.query;
        verdict && q.comparable && q.engine.EngineReturns? && q.reference.Some? ==>
          Agree(q.engine.table, q.reference.value, q.ordered, q.orderKeys, FLOAT_TOL, None, None))
  }

  /** The table is DuckDB's answer to the statement, or agrees with it. */
  ghost predicate Defended(st: Statement, t: Result) {
    var q := st.query;
    || st.direct == Some(t)
    || q.reference == Some(t)
    || (Comparable(q) && q.comparable && q.engine == EngineReturns(t) && q.reference.Some?
        && Agree(t, q.reference.value, q.ordered, q.orderKeys, FLOAT_TOL, None, None))
  }

  /** The policies under which no engine result escapes the comparison. */
  predicate FullChecking(pol: Policy) {
    !pol.RoutingActive() || (pol.mode == Sampled && pol.crossCheckRate >= 1.0)
  }

  /** Under such a policy, in any state, whatever a statement that returns leaves to be fetched is
      defended. */
  lemma ReturnedIsDefended(pol: Policy, s: RouterState, h: HandleState, st: Statement, verdict: bool)
    requires FullChecking(pol) && Honest(st, verdict)
    ensures
      var e := ExecuteStep(pol, s, h, st, verdict);
      e.finish == Returned ==> e.handle.Fetched().Some? && Defended(st, e.handle.Fetched().value)
  {
    var q := st.Asked();
    EngineServesOnlyEqual(pol, s, q, verdict);
    var step := RouteStep(pol, s, q, verdict);
    if pol.RoutingActive() && step.outcome.Routed? && step.trace.servedBy == Router.Engine {
      assert q.engine.EngineReturns? && step.outcome.result == q.engine.table;
    }
  }

  // ---- the condition on the policy is exact, in states a session reaches --------------

  const KEY := "k"
  const TEMPLATE := "t"

  function OneEngine(): Binding {
    Binding(TEMPLATE, KEY, "q", {})
  }

  const NOTHING := Result(0, 0, [])

  /** A statement of that template: the guards pass, the engine returns, and DuckDB answers the check as
      given. */
  function Plain(draw: real, reference: Option<Result>): Query {
    var ok := Passes("");
    Query(Some(KEY), ok, ok, ok, ok, true, EngineReturns(NOTHING), true, draw, reference, "", true, false, None)
  }

  lemma NothingAgrees()
    ensures ArgumentsFit(NOTHING, NOTHING, None, None)
    ensures Agree(NOTHING, NOTHING, false, None, FLOAT_TOL, None, None)
  {
    var f: seq<nat> := [];
    assert NOTHING.Rows() == [];
    assert Saturates(RowCompat([], [], 0, FloatSet([], [], 0), FLOAT_TOL), 0, f);
  }

  /** The engine has been registered and has run n times, each run checked and found equal or not checked. */
  ghost predicate Warm(pol: Policy, s: RouterState, n: nat) {
    s.registry == RegistryState(map[KEY := OneEngine()], {}, {}) && Get(s.execCounts, TEMPLATE) == n
  }

  lemma WarmRun(pol: Policy, s: RouterState, n: nat, q: Query)
    requires pol.RoutingActive() && Warm(pol, s, n) && (q == Plain(0.0, Some(NOTHING)) || q == Plain(pol.crossCheckRate, None))
    ensures KEY in s.registry.byNorm && Candidate(pol, s, q) == Some(OneEngine()) && Runs(s, OneEngine(), q)
    ensures RouteStep(pol, s, q, true) == Checked(pol, s, OneEngine(), q, NOTHING, true)
  {
    assert KEY in s.registry.byNorm;
    assert Candidate(pol, s, q) == Some(OneEngine());
    assert GuardsPass(GuardStack(s, OneEngine(), q));
  }

  /** Every comparison of the history was honest. */
  ghost predicate HonestRun(ops: seq<Op>) {
    forall k | 0 <= k < |ops| && ops[k].Call? :: Honest(Statement(true, ops[k].q, None, None), ops[k].verdict)
  }

  lemma {:induction false} WarmReached(pol: Policy, n: nat) returns (ops: seq<Op>)
    requires pol.RoutingActive()
    ensures Warm(pol, After(pol, ops), n) && HonestRun(ops)
  {
    if n == 0 {
      ops := [Register(OneEngine())];
      assert ops[..0] == [];
      assert map[][KEY := OneEngine()] == map[KEY := OneEngine()];
    } else {
      var before := WarmReached(pol, n - 1);
      var op := Call(Plain(0.0, Some(NOTHING)), true);
      ops := before + [op];
      assert ops[..|ops| - 1] == before;
      NothingAgrees();
      WarmRun(pol, After(pol, before), n - 1, op.q);
    }
  }

  // ---- what a failure leaves ----------------------------------------------------------------

  /** A statement that is blocked or raises leaves a result held in memory. One that is still open on
      the wrapped connection survives being blocked, or refused before the schema guard runs; that guard
      puts its own in its place, and a query that raises on DuckDB drops it. */
  lemma FailureKeepsTheResult(pol: Policy, s: RouterState, h: HandleState, st: Statement, verdict: bool)
    ensures
      var e := ExecuteStep(pol, s, h, st, verdict);
      e.finish != Returned ==>
        && e.handle.current == h.current
        && (h.current.Some? ==> e.handle.Fetched() == h.Fetched())
        && e.handle.open ==
           if e.finish == Blocked then h.open
           else if !pol.RoutingActive() || RouteStep(pol, s, st.Asked(), verdict).outcome == FellBack then None
           else if SchemaGuardRuns(pol, s, st.Asked()) then st.leftover
           else h.open
  {
  }

  /** Only the test mode refuses. */
  lemma FailureDropsOrKeeps(pol: Policy, s: RouterState, h: HandleState, st: Statement, verdict: bool)
    requires FullChecking(pol)
    ensures
      var e := ExecuteStep(pol, s, h, st, verdict);
      e.finish != Returned ==> e.handle.Fetched() == h.Fetched() || e.handle.Fetched().None?
  {
    FailureKeepsTheResult(pol, s, h, st, verdict);
    CallAccounted(pol, s, Call(st.Asked(), verdict));
  }

  /** The schema guard queries the connection exactly for a statement whose template is registered and not
      sidelined, is ready and read-only, and reads no changed table. */
  lemma SchemaGuardRunsExactly(pol: Policy, s: RouterState, q: Query)
    ensures SchemaGuardRuns(pol, s, q) <==>
      && pol.enabled && pol.mode != Off && q.normalized.Some? && q.normalized.value in s.registry.byNorm
      && q.engineReady.Passes? && q.selectOnly.Passes?
      && var b := s.registry.byNorm[q.normalized.value];
         b.templateId !in s.registry.quarantined && b.tables !! s.registry.dirtyTables
  {
    if q.normalized.Some? && q.normalized.value in s.registry.byNorm {
      var b := s.registry.byNorm[q.normalized.value];
      assert s.registry.byNorm != map[];
      GuardsInOrder(s, b, q);
      PassedAtLeast3(GuardStack(s, b, q));
    }
  }

  lemma PassedAtLeast3(guards: seq<(string, GuardRun)>)
    requires |guards| == 5
    ensures PassedBefore(guards) >= 3 <==> guards[0].1.Passes? && guards[1].1.Passes? && guards[2].1.Passes?
  {
  }

  /** A statement is blocked exactly if the policy blocks writes and it is one; then nothing changes but
      the count of blocked writes. */
  lemma BlockedExactly(pol: Policy, s: RouterState, h: HandleState, st: Statement, verdict: bool)
    ensures
      var e := ExecuteStep(pol, s, h, st, verdict);
      && (e.finish == Blocked <==> pol.blockWrites && !st.readOnly)
      && (e.finish == Blocked ==>
            && e.handle == h
            && e.state == s.(counters := s.counters.(blockedWrites := s.counters.blockedWrites + 1)))
  {
  }

  /** What a statement that returned leaves to be fetched is what was routed, or DuckDB's direct answer if
      nothing was. */
  lemma ReturnedFetches(pol: Policy, s: RouterState, h: HandleState, st: Statement, verdict: bool)
    ensures
      var e := ExecuteStep(pol, s, h, st, verdict);
      var outcome := RouteStep(pol, s, st.Asked(), verdict).outcome;
      e.finish == Returned ==>
        e.handle.Fetched() == if pol.RoutingActive() && outcome.Routed? then Some(outcome.result) else st.direct
  {
  }

  // ---- whole sessions -------------------------------------------------------------------------

  /** A statement on this handle, or anything else that happens to the shared router: a registration, a
      table changed, a call through another handle. */
  datatype Turn = Ask(st: Statement, verdict: bool) | Else(op: Op)

  function TurnStep(pol: Policy, before: Execution, turn: Turn): Execution {
    match turn
    case Ask(st, verdict) => ExecuteStep(pol, before.state, before.handle, st, verdict)
    case Else(op) => before.(state := Apply(pol, before.state, op))
  }

  /** A session after a history. */
  function Session(pol: Policy, turns: seq<Turn>): Execution {
    if turns == [] then Execution(Returned, Start(), HandleState(None, None))
    else TurnStep(pol, Session(pol, turns[..|turns| - 1]), turns[|turns| - 1])
  }

  ghost predicate HonestTurns(turns: seq<Turn>) {
    forall k | 0 <= k < |turns| && turns[k].Ask? :: Honest(turns[k].st, turns[k].verdict)
  }

  /** The table is defended for a statement of the session. */
  ghost predicate DefendedBySome(turns: seq<Turn>, t: Result) {
    exists k | 0 <= k < |turns| :: turns[k].Ask? && Defended(turns[k].st, t)
  }

  lemma DefendedLater(turns: seq<Turn>, n: nat, t: Result)
    requires n <= |turns| && DefendedBySome(turns[..n], t)
    ensures DefendedBySome(turns, t)
  {
    var k :| 0 <= k < n && turns[..n][k].Ask? && Defended(turns[..n][k].st, t);
    assert turns[..n][k] == turns[k];
  }

  /** Over any session under full checking, engines registered and other handles at work, what can be
      fetched was handed back for one of the session's statements and is defended for it; after a
      statement that returned, for that one. */
  lemma {:induction false} FetchedIsDefended(pol: Policy, turns: seq<Turn>)
    requires FullChecking(pol) && HonestTurns(turns)
    ensures
      var e := Session(pol, turns);
      e.handle.Fetched().Some? ==>
        && DefendedBySome(turns, e.handle.Fetched().value)
        && (turns != [] && turns[|turns| - 1].Ask? && e.finish == Returned ==>
              Defended(turns[|turns| - 1].st, e.handle.Fetched().value))
    decreases |turns|
  {
    if turns != [] {
      var n := |turns| - 1;
      FetchedIsDefended(pol, turns[..n]);
      TurnDefended(pol, Session(pol, turns[..n]), turns[n]);
      var h, h2 := Session(pol, turns[..n]).handle, Session(pol, turns).handle;
      if h2.Fetched().Some? && h2.Fetched() == h.Fetched() {
        DefendedLater(turns, n, h.Fetched().value);
      }
    }
  }

  /** One turn leaves what was there to be fetched, or nothing, or its own defended answer. */
  lemma TurnDefended(pol: Policy, before: Execution, turn: Turn)
    requires FullChecking(pol) && (turn.Ask? ==> Honest(turn.st, turn.verdict))
    ensures
      var e := TurnStep(pol, before, turn);
      && (turn.Ask? && e.finish == Returned ==> e.handle.Fetched().Some? && Defended(turn.st, e.handle.Fetched().value))
      && (turn.Else? || e.finish != Returned ==>
            e.handle.Fetched().None? || e.handle.Fetched() == before.handle.Fetched())
  {
    if turn.Ask? {
      ReturnedIsDefended(pol, before.state, before.handle, turn.st, turn.verdict);
      FailureDropsOrKeeps(pol, before.state, before.handle, turn.st, turn.verdict);
    }
  }

  // ---- writes -------------------------------------------------------------------------------

  lemma CheckedKeepsBlocked(pol: Policy, s: RouterState, b: Binding, q: Query, table: Result, verdict: bool)
    ensures Checked(pol, s, b, q, table, verdict).state.counters.blockedWrites == s.counters.blockedWrites
  {
  }

  lemma MatchedKeepsBlocked(pol: Policy, s: RouterState, b: Binding, q: Query, verdict: bool)
    ensures Matched(pol, s, b, q, verdict).state.counters.blockedWrites == s.counters.blockedWrites
  {
    if Runs(s, b, q) && q.engine.EngineReturns? {
      CheckedKeepsBlocked(pol, s, b, q, q.engine.table, verdict);
    }
  }

  lemma RouteKeepsBlocked(pol: Policy, s: RouterState, q: Query, verdict: bool)
    ensures RouteStep(pol, s, q, verdict).state.counters.blockedWrites == s.counters.blockedWrites
  {
    match Candidate(pol, s, q)
    case Some(b) => MatchedKeepsBlocked(pol, s, b, q, verdict);
    case None => var reason := NoCandidate(pol, s, q, verdict);
  }

  /** The turn is a write that is blocked, here or through another handle. */
  predicate WriteRefused(pol: Policy, turn: Turn) {
    match turn
    case Ask(st, _) => pol.blockWrites && !st.readOnly
    case Else(op) => op == BlockedWrite
  }

  function WritesRefused(pol: Policy, turns: seq<Turn>): nat {
    if turns == [] then 0
    else WritesRefused(pol, turns[..|turns| - 1]) + One(WriteRefused(pol, turns[|turns| - 1]))
  }

  lemma TurnCountsWrites(pol: Policy, before: Execution, turn: Turn)
    ensures TurnStep(pol, before, turn).state.counters.blockedWrites ==
      before.state.counters.blockedWrites + One(WriteRefused(pol, turn))
  {
    match turn
    case Ask(st, verdict) => RouteKeepsBlocked(pol, before.state, st.Asked(), verdict);
    case Else(op) =>
      if op.Call? {
        RouteKeepsBlocked(pol, before.state, op.q, op.verdict);
      }
  }

  /** Over every session the counter of blocked writes is the writes this handle was asked, if the policy
      blocks writes, and those blocked on other handles. */
  lemma {:induction false} BlockedWritesCounted(pol: Policy, turns: seq<Turn>)
    ensures Session(pol, turns).state.counters.blockedWrites == WritesRefused(pol, turns)
    decreases |turns|
  {
    if turns != [] {
      BlockedWritesCounted(pol, turns[..|turns| - 1]);
      TurnCountsWrites(pol, Session(pol, turns[..|turns| - 1]), turns[|turns| - 1]);
    }
  }

  /** The table is defended for a read-only statement of the session. */
  ghost predicate DefendedByRead(turns: seq<Turn>, t: Result) {
    exists k | 0 <= k < |turns| :: turns[k].Ask? && turns[k].st.readOnly && Defended(turns[k].st, t)
  }

  lemma DefendedByReadLater(turns: seq<Turn>, n: nat, t: Result)
    requires n <= |turns| && DefendedByRead(turns[..n], t)
    ensures DefendedByRead(turns, t)
  {
    var k :| 0 <= k < n && turns[..n][k].Ask? && turns[..n][k].st.readOnly && Defended(turns[..n][k].st, t);
    assert turns[..n][k] == turns[k];
  }

  /** Over every session that blocks writes, under full checking, what can be fetched was handed back for a
      read-only statement and is defended for it: no write has run. */
  lemma {:induction false} FetchedIsRead(pol: Policy, turns: seq<Turn>)
    requires FullChecking(pol) && pol.blockWrites && HonestTurns(turns)
    ensures
      var e := Session(pol, turns);
      && (e.handle.Fetched().Some? ==> DefendedByRead(turns, e.handle.Fetched().value))
      && (turns != [] && turns[|turns| - 1].Ask? && e.finish == Returned ==> turns[|turns| - 1].st.readOnly)
    decreases |turns|
  {
    if turns != [] {
      var n := |turns| - 1;
      var before := Session(pol, turns[..n]);
      FetchedIsRead(pol, turns[..n]);
      TurnDefended(pol, before, turns[n]);
      if turns[n].Ask? {
        BlockedExactly(pol, before.state, before.handle, turns[n].st, turns[n].verdict);
      }
      var h, h2 := before.handle, Session(pol, turns).handle;
      if h2.Fetched().Some? && h2.Fetched() == h.Fetched() {
        DefendedByReadLater(turns, n, h.Fetched().value);
      }
    }
  }

  function Elsewhere(ops: seq<Op>): (turns: seq<Turn>)
    ensures |turns| == |ops| && forall k | 0 <= k < |ops| :: turns[k] == Else(ops[k])
  {
    seq(|ops|, k requires 0 <= k < |ops| => Else(ops[k]))
  }

  lemma {:induction false} ElsewhereOnly(pol: Policy, ops: seq<Op>)
    ensures Session(pol, Elsewhere(ops)) == Execution(Returned, After(pol, ops), HandleState(None, None))
  {
    if ops != [] {
      var n := |ops| - 1;
      ElsewhereOnly(pol, ops[..n]);
      assert Elsewhere(ops)[..n] == Elsewhere(ops[..n]);
    }
  }

  /** A session in which others use the router first, and this handle then asks one statement. */
  lemma LastAsk(pol: Policy, ops: seq<Op>, st: Statement, verdict: bool)
    ensures
      var turns := Elsewhere(ops) + [Ask(st, verdict)];
      Session(pol, turns) == ExecuteStep(pol, After(pol, ops), HandleState(None, None), st, verdict)
  {
    var turns := Elsewhere(ops) + [Ask(st, verdict)];
    ElsewhereOnly(pol, ops);
    assert turns[..|turns| - 1] == Elsewhere(ops);
  }

  /** Every comparison of the session was honest, those of other handles included. */
  ghost predicate AllHonest(turns: seq<Turn>) {
    HonestTurns(turns) && forall k | 0 <= k < |turns| && turns[k].Else? && turns[k].op.Call? ::
      Honest(Statement(true, turns[k].op.q, None, None), turns[k].op.verdict)
  }

  lemma OnlyTheLastCounts(ops: seq<Op>, st: Statement, verdict: bool, t: Result)
    requires !Defended(st, t)
    ensures !DefendedBySome(Elsewhere(ops) + [Ask(st, verdict)], t)
  {
  }

  lemma UncheckedServe(pol: Policy, ops: seq<Op>, seen: nat, st: Statement)
    requires !FullChecking(pol) && Warm(pol, After(pol, ops), seen) && seen >= pol.verifyFirstN
    requires st == Statement(true, Plain(pol.crossCheckRate, None), None, None)
    ensures
      var e := ExecuteStep(pol, After(pol, ops), HandleState(None, None), st, false);
      e.finish == Returned && e.handle.Fetched() == Some(NOTHING)
    ensures !Defended(st, NOTHING) && Honest(st, false)
  {
    WarmRun(pol, After(pol, ops), seen, st.query);
    assert !ShouldCrossCheck(pol, seen + 1, st.query.draw);
  }

  /** Under any other policy some session, every comparison of it honest, ends with a statement that
      returns and leaves something to be fetched that is defended for none of its statements: the
      condition on the policy is exact. */
  lemma OnlyFullCheckingDefends(pol: Policy) returns (turns: seq<Turn>)
    requires !FullChecking(pol)
    ensures AllHonest(turns) && turns != [] && turns[|turns| - 1].Ask?
    ensures
      var e := Session(pol, turns);
      e.finish == Returned && e.handle.Fetched().Some? && !DefendedBySome(turns, e.handle.Fetched().value)
  {
    var seen: nat := if pol.verifyFirstN < 0 then 0 else pol.verifyFirstN;
    var ops := WarmReached(pol, seen);
    var st := Statement(true, Plain(pol.crossCheckRate, None), None, None);
    turns := Elsewhere(ops) + [Ask(st, false)];
    UncheckedServe(pol, ops, seen, st);
    LastAsk(pol, ops, st, false);
    OnlyTheLastCounts(ops, st, false, NOTHING);
  }

  /** Under full checking with routing on, sessions do hand back engine tables. */
  lemma EngineTablesAreFetched(pol: Policy) returns (turns: seq<Turn>)
    requires FullChecking(pol) && pol.RoutingActive()
    ensures AllHonest(turns) && turns != [] && turns[|turns| - 1].Ask?
    ensures
      var e, st := Session(pol, turns), turns[|turns| - 1].st;
      && e.finish == Returned && st.direct == None && st.query.engine.EngineReturns?
      && e.handle.current == Some(st.query.engine.table)
  {
    var ops := WarmReached(pol, 0);
    var q := Plain(0.0, Some(NOTHING));
    var st := Statement(true, q, None, None);
    turns := Elsewhere(ops) + [Ask(st, true)];
    NothingAgrees();
    WarmRun(pol, After(pol, ops), 0, q);
    LastAsk(pol, ops, st, true);
  }

  // ---- the handle ------------------------------------------------------------------

  /** The count of live handles that a family shares. */
  class RefCell {
    var live: int

    constructor ()
      ensures live == 0
    {
      live := 0;
    }
  }

  class DuckDbConnection {
    var open: Option<Result>
    var closed: bool

    constructor ()
      ensures open == None && !closed
    {
      open, closed := None, false;
    }
  }

  function EngineIds(bindings: seq<Option<nat>>): set<nat> {
    set i | 0 <= i < |bindings| && bindings[i].Some? :: bindings[i].value
  }

  /** The engines behind the registered bindings, in order (None for a binding without one), and how
      often each was told to close. */
  class EngineRack {
    var bindings: seq<Option<nat>>
    var closed: multiset<nat>

    constructor ()
      ensures bindings == [] && closed == multiset{}
    {
      bindings, closed := [], multiset{};
    }

    /** Closes every engine once, however many bindings it backs. */
    method CloseEngines()
      modifies this
      ensures bindings == old(bindings)
      ensures closed == old(closed) + multiset(EngineIds(bindings))
    {
      var seen: set<nat> := {};
      for i := 0 to |bindings|
        invariant bindings == old(bindings)
        invariant seen == EngineIds(bindings[..i])
        invariant closed == old(closed) + multiset(seen)
      {
        assert bindings[..i + 1] == bindings[..i] + [bindings[i]];
        if bindings[i].None? || bindings[i].value in seen {
          assert EngineIds(bindings[..i + 1]) == seen by { IdsGrow(bindings[..i], bindings[i]); }
          continue;
        }
        var engine := bindings[i].value;
        IdsGrow(bindings[..i], bindings[i]);
        ghost var before := seen;
        seen := seen + {engine};
        assert multiset(seen) == multiset(before) + multiset{engine};
        closed := closed + multiset{engine};
      }
      assert bindings[..|bindings|] == bindings;
    }
  }

  lemma IdsGrow(bindings: seq<Option<nat>>, b: Option<nat>)
    ensures EngineIds(bindings + [b]) == EngineIds(bindings) + (if b.Some? then {b.value} else {})
  {
    var more := bindings + [b];
    assert forall i | 0 <= i < |bindings| :: more[i] == bindings[i];
    assert more[|bindings|] == b;
  }

  /** What a family of handles shares, as a value. */
  datatype Shared = Shared(live: int, rack: set<nat>, closed: multiset<nat>)

  function HandleClosed(f: Shared): Shared {
    f.(live := f.live - 1, closed := if f.live - 1 <= 0 then f.closed + multiset(f.rack) else f.closed)
  }

  class SynnoConnection {
    const inner: DuckDbConnection
    const router: QueryRouter?
    const ownsInner: bool
    const cell: RefCell
    const rack: EngineRack
    var current: Option<Result>

    function View(): HandleState
      reads this, inner
    {
      HandleState(current, inner.open)
    }

    function Family(): Shared
      reads cell, rack
    {
      Shared(cell.live, EngineIds(rack.bindings), rack.closed)
    }

    /** The first handle of a family makes the count; a cursor is given it. */
    constructor (inner: DuckDbConnection, router: QueryRouter?, ownsInner: bool, shared: RefCell?, rack: EngineRack)
      modifies if shared == null then {} else {shared}
      ensures this.inner == inner && this.router == router && this.ownsInner == ownsInner && this.rack == rack
      ensures current == None
      ensures if shared == null then fresh(cell) && cell.live == 1 else cell == shared && cell.live == old(shared.live) + 1
    {
      var count := shared;
      if shared == null {
        count := new RefCell();
      }
      this.inner, this.router, this.ownsInner, this.rack := inner, router, ownsInner, rack;
      current := None;
      cell := count;
      new;
      cell.live := cell.live + 1;
    }

    /** Runs the statement on DuckDB; what was held in memory is dropped only once it succeeded. */
    method RunDuckDb(st: Statement) returns (finish: Finish)
      modifies this, inner
      ensures
        var h := HandleState(old(current), old(inner.open));
        forall s :: Execution(finish, s, View()) == RunDirect(s, h, st)
    {
      inner.open := st.direct;
      if st.direct.None? {
        return Raised;
      }
      current := None;
      finish := Returned;
    }

    method Execute(st: Statement) returns (finish: Finish, ghost verdict: bool)
      requires Comparable(st.query)
      modifies this, inner, if router == null then {} else {router, router.registry}
      ensures router == null ==> forall s :: Execution(finish, s, View()) == RunDirect(s, old(View()), st)
      ensures router != null ==>
        Execution(finish, router.View(), View()) ==
        ExecuteStep(router.policy, old(router.View()), old(View()), st, verdict)
      ensures Honest(st, verdict)
    {
      verdict := false;
      if router != null && router.policy.blockWrites && !st.readOnly {
        router.NoteBlockedWrite();
        return Blocked, verdict;
      }
      if router == null || !router.policy.RoutingActive() {
        finish := RunDuckDb(st);
        return;
      }
      var introspects := SchemaGuardRuns(router.policy, router.View(), st.Asked());
      var outcome, trace;
      outcome, trace, verdict := router.Route(st.Asked());
      if introspects {
        inner.open := st.leftover;
      }
      match outcome
      case Refused => finish := Raised;
      case Routed(t) =>
        current := Some(t);
        finish := Returned;
      case FellBack =>
        finish := RunDuckDb(st);
    }

    method Cursor() returns (c: SynnoConnection)
      modifies cell
      ensures fresh(c) && fresh(c.inner) && c.ownsInner && c.current == None
      ensures c.router == router && c.cell == cell && c.rack == rack
      ensures c.Family() == old(Family()).(live := old(cell.live) + 1)
    {
      var inner2 := new DuckDbConnection();
      c := new SynnoConnection(inner2, router, true, cell, rack);
    }

    method Close()
      modifies cell, rack, inner
      ensures Family() == HandleClosed(old(Family()))
      ensures inner.closed == (old(inner.closed) || ownsInner) && inner.open == old(inner.open)
      ensures rack.bindings == old(rack.bindings)
    {
      cell.live := cell.live - 1;
      if cell.live <= 0 {
        rack.CloseEngines();
      }
      if ownsInner {
        inner.closed := true;
      }
    }
  }

  /** The turn with a verdict of its own. */
  predicate Taken(turn: Turn, done: Turn) {
    match turn
    case Ask(st, _) => done.Ask? && done.st == st
    case Else(op) => done.Else? && Performed(op, done.op)
  }

  /** The turns have been taken in order on a new handle and router, and this is where they lead. */
  ghost predicate Went(pol: Policy, e: Execution, turns: seq<Turn>, done: seq<Turn>) {
    && |done| == |turns| && (forall k | 0 <= k < |turns| :: Taken(turns[k], done[k]))
    && e == Session(pol, done) && HonestTurns(done)
  }

  lemma WentOneMore(pol: Policy, e: Execution, turns: seq<Turn>, done: seq<Turn>, turn: Turn, last: Turn)
    requires Went(pol, e, turns, done) && Taken(turn, last) && (last.Ask? ==> Honest(last.st, last.verdict))
    ensures Went(pol, TurnStep(pol, e, last), turns + [turn], done + [last])
  {
    var more := done + [last];
    assert more[..|more| - 1] == done;
  }

  method TakeTurn(c: SynnoConnection, router: QueryRouter, ghost turns: seq<Turn>, turn: Turn, finish0: Finish, ghost done: seq<Turn>)
    returns (finish: Finish, ghost more: seq<Turn>)
    requires c.router == router && Went(router.policy, Execution(finish0, router.View(), c.View()), turns, done)
    requires if turn.Ask? then Comparable(turn.st.query) else turn.op.Call? ==> Comparable(turn.op.q)
    modifies c, c.inner, router, router.registry
    ensures Went(router.policy, Execution(finish, router.View(), c.View()), turns + [turn], more)
  {
    ghost var e := Execution(finish0, router.View(), c.View());
    ghost var last;
    match turn {
      case Ask(st, _) =>
        ghost var verdict;
        finish, verdict := c.Execute(st);
        last := Ask(st, verdict);
      case Else(op) =>
        ghost var verdict := Perform(router, op);
        finish, last := finish0, Else(WithVerdict(op, verdict));
    }
    WentOneMore(router.policy, e, turns, done, turn, last);
    more := done + [last];
  }

  /** A whole session on a new handle with a new router. */
  method RunSession(c: SynnoConnection, router: QueryRouter, turns: seq<Turn>) returns (finish: Finish, ghost done: seq<Turn>)
    requires c.router == router && router.View() == Start() && c.View() == HandleState(None, None)
    requires forall k | 0 <= k < |turns| ::
      if turns[k].Ask? then Comparable(turns[k].st.query) else turns[k].op.Call? ==> Comparable(turns[k].op.q)
    modifies c, c.inner, router, router.registry
    ensures Went(router.policy, Execution(finish, router.View(), c.View()), turns, done)
  {
    finish, done := Returned, [];
    for k := 0 to |turns|
      invariant Went(router.policy, Execution(finish, router.View(), c.View()), turns[..k], done)
    {
      finish, done := TakeTurn(c, router, turns[..k], turns[k], finish, done);
      TakeNext(turns, k);
    }
    assert turns[..|turns|] == turns;
  }
}
