/**
 * Classification of an outcome as "expected" (success-like) or "failure", as
 * used by retry, circuit breaker and fallback: the set-based exception decision
 * with its optional cause-chain inspection, the predicate-based decisions, and
 * the always-expected result decision.
 */
module Decisions {
  import opened Wrappers
  import opened Throwables

  /**
   * A set of throwable classes. How membership is decided (exact class or
   * subclass) belongs to the set and is left uninterpreted: `includes` is any
   * predicate on classes. `isAll` and `isEmpty` are the set's own flags.
   */
  datatype SetOfThrowables = SetOfThrowables(includes: ClassId -> bool, isAll: bool, isEmpty: bool)
  {
    /** The flags agree with membership: the "all" set includes every class, the empty set none. */
    ghost predicate Coherent() {
      && (isEmpty ==> forall c :: !includes(c))
      && (isAll ==> forall c :: includes(c))
    }
  }

  /** The set that includes no class. */
  const Empty: SetOfThrowables := SetOfThrowables(_ => false, false, true)

  /** An argument that must not be null was null; the message is the one `checkNotNull` reports. */
  datatype Error = NullArgument(message: string)

  const FailureSetMissing := "Set of considered-failure throwables must be set"
  const ExpectedSetMissing := "Set of considered-expected throwables must be set"

  /**
   * An immutable set-based exception decision. The two flags are computed once,
   * at construction, from the sets: whether the failure set is something other
   * than "all" and whether the expected set is something other than empty.
   */
  datatype SetBasedExceptionDecision = SetBasedExceptionDecision(
    consideredFailure: SetOfThrowables,
    consideredExpected: SetOfThrowables,
    inspectCauseChain: bool,
    nonDefaultConsideredFailure: bool,
    nonDefaultConsideredExpected: bool)
  {
    /** The flags were derived from the sets and the sets are coherent. */
    ghost predicate Valid() {
      && consideredFailure.Coherent()
      && consideredExpected.Coherent()
      && nonDefaultConsideredFailure == !consideredFailure.isAll
      && nonDefaultConsideredExpected == !consideredExpected.isEmpty
    }

    /**
     * Is the throwable `e` considered expected (as opposed to failure)? In
     * either mode, an own class in the expected set makes it expected, and it
     * is a failure only if some throwable of its cause chain is in the failure set.
     */
    function IsConsideredExpected(h: Heap, e: Ref): (r: bool)
      requires WellFormed(h) && e in h
      ensures Valid() && consideredExpected.includes(h[e].cls) ==> r
      ensures !r ==> ChainMatches(h, e, consideredFailure.includes)
    {
      if inspectCauseChain then IsConsideredExpectedWithCauseChain(h, e)
      else IsConsideredExpectedDefault(h, e)
    }

    /** Looks only at the class of `e` itself; expected wins over failure. */
    function IsConsideredExpectedDefault(h: Heap, e: Ref): (r: bool)
      requires WellFormed(h) && e in h
      ensures consideredExpected.includes(h[e].cls) ==> r
      ensures !consideredExpected.includes(h[e].cls) ==> (r <==> !consideredFailure.includes(h[e].cls))
      ensures !r ==> ChainMatches(h, e, consideredFailure.includes)
    {
      if consideredExpected.includes(h[e].cls) then true
      else if consideredFailure.includes(h[e].cls) then
        OwnClassMatches(h, e, consideredFailure.includes);
        false
      else true
    }

    /**
     * First the class of `e` itself (each check skipped when its set is the
     * default one), then the whole cause chain: an expected match anywhere wins
     * over a failure match anywhere.
     */
    function IsConsideredExpectedWithCauseChain(h: Heap, e: Ref): (r: bool)
      requires WellFormed(h) && e in h
      ensures Valid() && consideredExpected.includes(h[e].cls) ==> r
      ensures (&& Valid() && ChainMatches(h, e, consideredExpected.includes)
               && (consideredFailure.isAll || !consideredFailure.includes(h[e].cls))) ==> r
      ensures !r ==> ChainMatches(h, e, consideredFailure.includes)
    {
      if nonDefaultConsideredExpected && consideredExpected.includes(h[e].cls) then true
      else if nonDefaultConsideredFailure && consideredFailure.includes(h[e].cls) then
        OwnClassMatches(h, e, consideredFailure.includes);
        false
      else if ChainMatches(h, e, consideredExpected.includes) then true
      else if ChainMatches(h, e, consideredFailure.includes) then false
      else true
    }
  }

  /**
   * The constructor: rejects a null considered-failure set, then a null
   * considered-expected set, and otherwise records the sets, the mode and the
   * two flags.
   */
  function NewSetBasedExceptionDecision(
    consideredFailure: Option<SetOfThrowables>,
    consideredExpected: Option<SetOfThrowables>,
    inspectCauseChain: bool): (r: Result<SetBasedExceptionDecision, Error>)
    ensures r.Err? <==> consideredFailure.None? || consideredExpected.None?
    ensures consideredFailure.None? ==> r == Err(NullArgument(FailureSetMissing))
    ensures consideredFailure.Some? && consideredExpected.None? ==> r == Err(NullArgument(ExpectedSetMissing))
    ensures r.Ok? ==>
      && r.value.consideredFailure == consideredFailure.value
      && r.value.consideredExpected == consideredExpected.value
      && r.value.inspectCauseChain == inspectCauseChain
      && r.value.nonDefaultConsideredFailure == !consideredFailure.value.isAll
      && r.value.nonDefaultConsideredExpected == !consideredExpected.value.isEmpty
    ensures r.Ok? && consideredFailure.value.Coherent() && consideredExpected.value.Coherent() ==> r.value.Valid()
  {
    if consideredFailure.None? then Err(NullArgument(FailureSetMissing))
    else if consideredExpected.None? then Err(NullArgument(ExpectedSetMissing))
    else
      var failure, expected := consideredFailure.value, consideredExpected.value;
      Ok(SetBasedExceptionDecision(failure, expected, inspectCauseChain, !failure.isAll, !expected.isEmpty))
  }

  /**
   * The cycle-guarded walk of the cause chain: visits `e`, then its causes, each
   * at most once by identity, and reports whether some visited throwable's class
   * is in `s`. Reads the heap and the set, changes nothing.
   */
  method Includes(s: SetOfThrowables, h: Heap, e: Ref) returns (found: bool)
    requires WellFormed(h) && e in h
    ensures found == ChainMatches(h, e, s.includes)
    ensures found <==> exists k: nat :: CauseMatches(h, e, k, s.includes)
  {
    ChainMatchesIffSomeCause(h, e, s.includes);
    var seen: set<Ref> := {};
    var cur: Option<Ref> := Some(e);
    ghost var visited: seq<Ref> := [];
    while cur.Some? && cur.value !in seen
      invariant cur.Some? ==> cur.value in h
      invariant Chain(h, Some(e), {}) == visited + Chain(h, cur, seen)
      invariant forall i :: 0 <= i < |visited| ==> visited[i] in h
      invariant forall i :: 0 <= i < |visited| ==> !s.includes(h[visited[i]].cls)
      decreases h.Keys - seen
    {
      var t := cur.value;
      assert Chain(h, cur, seen) == [t] + Chain(h, h[t].cause, seen + {t});
      seen := seen + {t};
      if s.includes(h[t].cls) {
        assert Chain(h, Some(e), {})[|visited|] == t;
        return true;
      }
      visited := visited + [t];
      cur := h[t].cause;
    }
    assert Chain(h, Some(e), {}) == visited;
    return false;
  }

  /** The classification of thrown errors: a user predicate, or the set-based decision. */
  datatype ExceptionDecision =
    | PredicateBasedExceptionDecision(isExpected: (Heap, Ref) -> bool)
    | SetBased(decision: SetBasedExceptionDecision)
  {
    function IsConsideredExpected(h: Heap, e: Ref): bool
      requires WellFormed(h) && e in h
    {
      match this
      case PredicateBasedExceptionDecision(p) => p(h, e)
      case SetBased(d) => d.IsConsideredExpected(h, e)
    }
  }

  /** The classification of produced values: a user predicate, or "every value is expected". */
  datatype ResultDecision<!V> =
    | PredicateBasedResultDecision(isExpected: V -> bool)
    | AlwaysExpected
  {
    function IsConsideredExpected(v: V): bool {
      match this
      case PredicateBasedResultDecision(p) => p(v)
      case AlwaysExpected => true
    }
  }

  // Properties of the set-based decision

  /**
   * A decision built from two empty sets considers every throwable expected,
   * in both modes and whatever its cause chain.
   */
  lemma {:induction false} EmptySetsExpectEverything(inspectCauseChain: bool, h: Heap, e: Ref)
    requires WellFormed(h) && e in h
    ensures NewSetBasedExceptionDecision(Some(Empty), Some(Empty), inspectCauseChain).Ok?
    ensures NewSetBasedExceptionDecision(Some(Empty), Some(Empty), inspectCauseChain).value.IsConsideredExpected(h, e)
  {
    var d := NewSetBasedExceptionDecision(Some(Empty), Some(Empty), inspectCauseChain).value;
    ChainMatchesIffSomeCause(h, e, d.consideredFailure.includes);
  }

  /** In either mode, a throwable whose own class is considered expected is expected. */
  lemma ExpectedWins(d: SetBasedExceptionDecision, h: Heap, e: Ref)
    requires d.Valid() && WellFormed(h) && e in h
    requires d.consideredExpected.includes(h[e].cls)
    ensures d.IsConsideredExpected(h, e)
  {
  }

  /**
   * Plain mode decides by the class of `e` alone: expected when its class is in
   * the expected set or not in the failure set.
   */
  lemma DefaultModeDecision(d: SetBasedExceptionDecision, h: Heap, e: Ref)
    requires !d.inspectCauseChain && WellFormed(h) && e in h
    ensures d.IsConsideredExpected(h, e) <==>
      d.consideredExpected.includes(h[e].cls) || !d.consideredFailure.includes(h[e].cls)
  {
  }

  /** Plain mode ignores causes: two throwables of the same class get the same answer. */
  lemma DefaultModeIgnoresCauses(d: SetBasedExceptionDecision, h1: Heap, e1: Ref, h2: Heap, e2: Ref)
    requires !d.inspectCauseChain
    requires WellFormed(h1) && e1 in h1 && WellFormed(h2) && e2 in h2
    requires h1[e1].cls == h2[e2].cls
    ensures d.IsConsideredExpected(h1, e1) == d.IsConsideredExpected(h2, e2)
  {
  }

  /**
   * Cause-chain mode, stated over the cause chain itself: `e` is a failure
   * exactly when its own class is not expected and either (a) the failure set is
   * not "all" and includes the class of `e`, or (b) no throwable of the chain is
   * expected while some throwable of the chain is a failure.
   */
  lemma {:induction false} CauseChainDecision(d: SetBasedExceptionDecision, h: Heap, e: Ref)
    requires d.Valid() && d.inspectCauseChain && WellFormed(h) && e in h
    ensures !d.IsConsideredExpected(h, e) <==>
      && !d.consideredExpected.includes(h[e].cls)
      && (|| (!d.consideredFailure.isAll && d.consideredFailure.includes(h[e].cls))
          || (&& !(exists k: nat :: CauseMatches(h, e, k, d.consideredExpected.includes))
              && (exists k: nat :: CauseMatches(h, e, k, d.consideredFailure.includes))))
  {
    ChainMatchesIffSomeCause(h, e, d.consideredExpected.includes);
    ChainMatchesIffSomeCause(h, e, d.consideredFailure.includes);
  }

  /**
   * Cause-chain mode, with a failure set other than "all": a top-level failure
   * match is decisive, even when a deeper cause is in the expected set.
   */
  lemma TopLevelFailureShortcut(d: SetBasedExceptionDecision, h: Heap, e: Ref)
    requires d.Valid() && d.inspectCauseChain && WellFormed(h) && e in h
    requires !d.consideredFailure.isAll
    requires d.consideredFailure.includes(h[e].cls) && !d.consideredExpected.includes(h[e].cls)
    ensures !d.IsConsideredExpected(h, e)
  {
  }

  /**
   * Cause-chain mode, with the "all" failure set, the shortcut is skipped: `e`
   * is expected exactly when some throwable of its cause chain is in the
   * expected set.
   */
  lemma {:induction false} AllFailureDefersToCauses(d: SetBasedExceptionDecision, h: Heap, e: Ref)
    requires d.Valid() && d.inspectCauseChain && WellFormed(h) && e in h
    requires d.consideredFailure.isAll
    ensures d.IsConsideredExpected(h, e) <==> exists k: nat :: CauseMatches(h, e, k, d.consideredExpected.includes)
  {
    CauseChainDecision(d, h, e);
    assert CauseMatches(h, e, 0, d.consideredFailure.includes);
    if d.consideredExpected.includes(h[e].cls) {
      assert CauseMatches(h, e, 0, d.consideredExpected.includes);
    }
  }

  /**
   * Cause-chain mode: an expected cause anywhere in the chain beats failure
   * matches anywhere in the chain, unless the top-level shortcut applies.
   */
  lemma {:induction false} ExpectedCauseWins(d: SetBasedExceptionDecision, h: Heap, e: Ref, k: nat)
    requires d.Valid() && d.inspectCauseChain && WellFormed(h) && e in h
    requires CauseMatches(h, e, k, d.consideredExpected.includes)
    requires d.consideredFailure.isAll || !d.consideredFailure.includes(h[e].cls)
    ensures d.IsConsideredExpected(h, e)
  {
    CauseChainDecision(d, h, e);
  }

  /** Cause-chain mode: when no throwable of the chain is in either set, `e` is expected. */
  lemma {:induction false} NoMatchIsExpected(d: SetBasedExceptionDecision, h: Heap, e: Ref)
    requires d.Valid() && d.inspectCauseChain && WellFormed(h) && e in h
    requires forall k: nat :: !CauseMatches(h, e, k, d.consideredExpected.includes)
    requires forall k: nat :: !CauseMatches(h, e, k, d.consideredFailure.includes)
    ensures d.IsConsideredExpected(h, e)
  {
    CauseChainDecision(d, h, e);
    assert !CauseMatches(h, e, 0, d.consideredFailure.includes);
  }

  /** A throwable without a cause gets the same answer in both modes. */
  lemma {:induction false} ModesAgreeWithoutCause(d: SetBasedExceptionDecision, h: Heap, e: Ref)
    requires d.Valid() && WellFormed(h) && e in h && h[e].cause.None?
    ensures d.IsConsideredExpectedWithCauseChain(h, e) == d.IsConsideredExpectedDefault(h, e)
  {
    assert Chain(h, Some(e), {}) == [e];
  }
}
