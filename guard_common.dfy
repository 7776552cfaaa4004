/**
 * The decision factories of the programmatic guard API: they turn the
 * builder's class arrays and "is failure" predicates into the decisions that
 * retry, circuit breaker and fallback consult.
 */
module GuardCommon {
  import opened Wrappers
  import opened Throwables
  import opened Decisions

  /** `create` stands for `SetOfThrowables.create`, whose workings are not part of this model. */
  ghost predicate CreatesCoherentSets(create: seq<ClassId> -> SetOfThrowables) {
    forall classes :: create(classes).Coherent()
  }

  /**
   * A null or empty class array gives the empty set; any other array gives the
   * set `create` builds from its classes.
   */
  function CreateSetOfThrowables(
    throwableClasses: Option<seq<ClassId>>,
    create: seq<ClassId> -> SetOfThrowables): (s: SetOfThrowables)
    ensures throwableClasses.None? || throwableClasses.value == [] ==>
      s.isEmpty && !s.isAll && forall c :: !s.includes(c)
    ensures throwableClasses.Some? && throwableClasses.value != [] ==> s == create(throwableClasses.value)
    ensures CreatesCoherentSets(create) ==> s.Coherent()
  {
    if throwableClasses.None? || |throwableClasses.value| == 0 then Empty
    else create(throwableClasses.value)
  }

  /**
   * With a user predicate (which answers "is failure"), the decision is
   * predicate based over its negation and the class arrays are ignored.
   * Without one, the decision is set based, inspects the cause chain, and
   * takes its failure set from `consideredFailure` and its expected set from
   * `consideredExpected`.
   */
  function CreateExceptionDecision(
    consideredExpected: Option<seq<ClassId>>,
    consideredFailure: Option<seq<ClassId>>,
    whenExceptionPredicate: Option<(Heap, Ref) -> bool>,
    create: seq<ClassId> -> SetOfThrowables): (d: ExceptionDecision)
    ensures whenExceptionPredicate.Some? ==>
      && d.PredicateBasedExceptionDecision?
      && forall h: Heap, e: Ref | WellFormed(h) && e in h ::
           d.IsConsideredExpected(h, e) == !whenExceptionPredicate.value(h, e)
    ensures whenExceptionPredicate.None? ==>
      && d.SetBased?
      && d.decision.inspectCauseChain
      && d.decision.consideredFailure == CreateSetOfThrowables(consideredFailure, create)
      && d.decision.consideredExpected == CreateSetOfThrowables(consideredExpected, create)
      && d.decision.nonDefaultConsideredFailure == !d.decision.consideredFailure.isAll
      && d.decision.nonDefaultConsideredExpected == !d.decision.consideredExpected.isEmpty
    ensures whenExceptionPredicate.None? && CreatesCoherentSets(create) ==> d.decision.Valid()
  {
    match whenExceptionPredicate
    case Some(isFailure) =>
      PredicateBasedExceptionDecision((h: Heap, e: Ref) => !isFailure(h, e))
    case None =>
      var made := NewSetBasedExceptionDecision(
        Some(CreateSetOfThrowables(consideredFailure, create)),
        Some(CreateSetOfThrowables(consideredExpected, create)),
        true);
      SetBased(made.value)
  }

  /**
   * With a user predicate (which answers "is failure"), the decision is
   * predicate based over its negation; without one, every value is expected.
   */
  function CreateResultDecision<V(!new)>(whenResultPredicate: Option<V -> bool>): (d: ResultDecision<V>)
    ensures whenResultPredicate.Some? ==>
      && d.PredicateBasedResultDecision?
      && forall v :: d.IsConsideredExpected(v) == !whenResultPredicate.value(v)
    ensures whenResultPredicate.None? ==> d == AlwaysExpected && forall v :: d.IsConsideredExpected(v)
  {
    match whenResultPredicate
    case Some(isFailure) => PredicateBasedResultDecision(v => !isFailure(v))
    case None => AlwaysExpected
  }

  /** A null class array and an empty one make the same decision input. */
  lemma NullAndEmptyArraysAgree(create: seq<ClassId> -> SetOfThrowables)
    ensures CreateSetOfThrowables(None, create) == CreateSetOfThrowables(Some([]), create)
  {
  }

  /**
   * Without a predicate and without considered-failure classes, the failure set
   * is empty, so every throwable is considered expected, whatever its cause chain.
   */
  lemma NoFailureClassesMeansAllExpected(
    consideredExpected: Option<seq<ClassId>>,
    consideredFailure: Option<seq<ClassId>>,
    create: seq<ClassId> -> SetOfThrowables,
    h: Heap, e: Ref)
    requires consideredFailure.None? || consideredFailure.value == []
    requires CreatesCoherentSets(create) && WellFormed(h) && e in h
    ensures CreateExceptionDecision(consideredExpected, consideredFailure, None, create).IsConsideredExpected(h, e)
  {
  }
}
