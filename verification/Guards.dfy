/** The guard stack: guards run in order and the first that fails or raises stops it. */
module Guards {
  /** What one guard does when it is run. */
  datatype GuardRun = Passes(detail: string) | Fails(detail: string) | Raises(message: string)

  /** One line of the guard trace. */
  datatype GuardLine = GuardLine(name: string, ok: bool, detail: string)

  function LineOf(name: string, run: GuardRun): GuardLine {
    match run
    case Passes(detail) => GuardLine(name, true, detail)
    case Fails(detail) => GuardLine(name, false, detail)
    case Raises(message) => GuardLine(name, false, "guard raised: " + message)
  }

  /** Number of guards before the first that does not pass. */
  function PassedBefore(guards: seq<(string, GuardRun)>): (k: nat)
    ensures k <= |guards|
    ensures forall i | 0 <= i < k :: guards[i].1.Passes?
    ensures k < |guards| ==> !guards[k].1.Passes?
  {
    if guards == [] || !guards[0].1.Passes? then 0 else 1 + PassedBefore(guards[1..])
  }

  /** Evaluates the stack. All guards passing is success; otherwise the trace ends with the first
      guard that did not pass, and no later guard is recorded. */
  method Evaluate(guards: seq<(string, GuardRun)>) returns (ok: bool, lines: seq<GuardLine>)
    ensures ok <==> forall i | 0 <= i < |guards| :: guards[i].1.Passes?
    ensures |lines| == if ok then |guards| else PassedBefore(guards) + 1
    ensures forall i | 0 <= i < |lines| :: i < |guards| && lines[i] == LineOf(guards[i].0, guards[i].1)
    ensures !ok ==> !lines[|lines| - 1].ok && forall i | 0 <= i < |lines| - 1 :: lines[i].ok
  {
    lines := [];
    for i := 0 to |guards|
      invariant |lines| == i <= PassedBefore(guards)
      invariant forall l | 0 <= l < i :: lines[l] == LineOf(guards[l].0, guards[l].1) && guards[l].1.Passes?
    {
      var (name, run) := guards[i];
      lines := lines + [LineOf(name, run)];
      if !run.Passes? {
        return false, lines;
      }
    }
    ok := true;
  }
}
