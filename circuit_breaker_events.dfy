/**
 * The event vocabulary of the circuit breaker: the outcome of a guarded call,
 * and the events announcing a state transition or a finished call. Each enum
 * constant carries a fixed field set by its constructor; `Name()` is the
 * constant's Java name.
 */
module CircuitBreakerEvents {

  /** The three states of a circuit breaker. */
  datatype CircuitBreakerState = Closed | Open | HalfOpen
  {
    function Name(): string {
      match this
      case Closed => "CLOSED"
      case Open => "OPEN"
      case HalfOpen => "HALF_OPEN"
    }
  }

  /** The outcome of one invocation as the circuit breaker records it. */
  datatype Result = Success | Failure | Prevented
  {
    function Name(): string {
      match this
      case Success => "SUCCESS"
      case Failure => "FAILURE"
      case Prevented => "PREVENTED"
    }
  }

  /** Every value of `Result`, each once. */
  const AllResults: seq<Result> := [Result.Success, Result.Failure, Result.Prevented]

  /** The event of moving to a new state; each constant names its target state. */
  datatype StateTransition = ToClosed | ToOpen | ToHalfOpen
  {
    function Name(): string {
      match this
      case ToClosed => "TO_CLOSED"
      case ToOpen => "TO_OPEN"
      case ToHalfOpen => "TO_HALF_OPEN"
    }

    /** The state the transition moves to: the one its name points at. */
    function TargetState(): (s: CircuitBreakerState)
      ensures Name() == "TO_" + s.Name()
    {
      match this
      case ToClosed => Closed
      case ToOpen => Open
      case ToHalfOpen => HalfOpen
    }
  }

  /** The event of an invocation having finished; each constant carries its outcome. */
  datatype Finished = Success | Failure | Prevented
  {
    function Name(): string {
      match this
      case Success => "SUCCESS"
      case Failure => "FAILURE"
      case Prevented => "PREVENTED"
    }

    /** The `result` field: the `Result` of the same name as the event. */
    function Outcome(): (r: Result)
      ensures r.Name() == Name()
    {
      match this
      case Success => Result.Success
      case Failure => Result.Failure
      case Prevented => Result.Prevented
    }
  }

  /** The transition whose target is `s`: the inverse of `TargetState`. */
  function TransitionTo(s: CircuitBreakerState): (t: StateTransition)
    ensures t.TargetState() == s
  {
    match s
    case Closed => ToClosed
    case Open => ToOpen
    case HalfOpen => ToHalfOpen
  }

  /** The finished event reporting `r`: the inverse of `Finished.Outcome`. */
  function FinishedWith(r: Result): (f: Finished)
    ensures f.Outcome() == r
  {
    match r
    case Success => Finished.Success
    case Failure => Finished.Failure
    case Prevented => Finished.Prevented
  }

  /** `Result` has exactly three values, all distinct. */
  lemma ResultHasThreeValues()
    ensures forall r: Result :: r in AllResults
    ensures |AllResults| == 3
    ensures forall i, j :: 0 <= i < j < |AllResults| ==> AllResults[i] != AllResults[j]
  {
    forall r: Result
      ensures r in AllResults
    {
      match r
      case Success => assert AllResults[0] == r;
      case Failure => assert AllResults[1] == r;
      case Prevented => assert AllResults[2] == r;
    }
  }

  /**
   * `TargetState` is a bijection from transitions onto states: distinct
   * transitions have distinct targets and every state is the target of one.
   */
  lemma TargetStateIsBijection()
    ensures forall t: StateTransition :: TransitionTo(t.TargetState()) == t
    ensures forall s: CircuitBreakerState :: TransitionTo(s).TargetState() == s
    ensures forall t1: StateTransition, t2: StateTransition ::
      t1.TargetState() == t2.TargetState() ==> t1 == t2
  {
  }

  /**
   * `Finished.Outcome` is a bijection from finished events onto results:
   * distinct events report distinct results and every result is reported by one.
   */
  lemma FinishedOutcomeIsBijection()
    ensures forall f: Finished :: FinishedWith(f.Outcome()) == f
    ensures forall r: Result :: FinishedWith(r).Outcome() == r
    ensures forall f1: Finished, f2: Finished :: f1.Outcome() == f2.Outcome() ==> f1 == f2
  {
  }
}
