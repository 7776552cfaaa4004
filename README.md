# Exception classification of SmallRye Fault Tolerance, in Dafny

This project models the part of SmallRye Fault Tolerance that decides whether
a thrown error counts as *expected* (success-like) or as a *failure*. Retry,
circuit breaker and fallback all ask this question. The model covers:

- the set-based exception decision (`SetBasedExceptionDecision`). It holds a
  considered-failure set and a considered-expected set. It answers in a plain
  mode, which looks at the throwable's own class, or in a cause-chain mode,
  which walks `getCause()` links and guards against cycles by remembering the
  throwables it has visited, by identity;
- the factories of the programmatic guard API (`GuardCommon`). They build
  exception and result decisions from class arrays and user predicates;
- the circuit breaker's event vocabulary (`CircuitBreakerEvents`): outcomes,
  state-transition events and finished events, each with its fixed field.

Files:

- `wrappers.dfy`: `Option` (a nullable reference) and `Result` (a value or a
  thrown exception).
- `throwables.dfy`: throwables as a finite heap `map<Ref, Throwable>`. `Ref` is
  object identity, so cyclic cause chains can be written down. `CauseAt` is the
  reference meaning of "the k-th cause". `Chain` is the walk with a visited set.
  The lemmas prove that the walk visits exactly the cause chain, each throwable
  once.
- `decisions.dfy`: `SetOfThrowables`, `SetBasedExceptionDecision` (the
  constructor, both modes and the `Includes` loop), the predicate-based
  decisions and the always-expected result decision, with the priority rules
  as lemmas.
- `guard_common.dfy`: `CreateSetOfThrowables`, `CreateExceptionDecision` and
  `CreateResultDecision`.
- `circuit_breaker_events.dfy`: `Result`, `StateTransition` with
  `TargetState`, `Finished` with its result, and the bijection lemmas.

Modelling choices:

- The Java fields of the decision are `final`, so the decision is an immutable
  datatype and its queries are functions. `Includes` is a `while` loop in the
  source. It is a method with a loop here, proved against the function `Chain`.
  It has no `modifies` clause: it changes neither the throwable nor the set.
- How `SetOfThrowables.includes` matches a class (exact class or subclass) is not
  part of this model. `includes` is any predicate on class names. `isAll` and
  `isEmpty` are flags. `Coherent()` assumes they agree with membership: the "all"
  set includes every class and the empty set includes none. Lemmas that need
  this say so with `Valid()`.
- `SetOfThrowables.create` is not part of this model. The factories take it as a
  parameter, `create`.
- A throwable's `getCause()` is its `cause` field. `None` stands for `null`.
- `checkNotNull` is modelled as `Err(NullArgument(message))` with the source's
  messages. The null checks run in the same order as in the source.
- An exception predicate is a total function of the heap and the throwable's identity, so it can read the throwable's class and causes. A result predicate is a total function of the value.

Two consequences of the code:

- The two sets may overlap: when a class is in both, expected wins
  (`Decisions.ExpectedWins`).
- With no predicate and a null or empty considered-failure array,
  `createExceptionDecision` builds an EMPTY failure set, so every throwable is
  considered expected (`GuardCommon.NoFailureClassesMeansAllExpected`).

## Model

| member | source | states |
|---|---|---|
| Throwables.CauseAt | implementation/core/src/main/java/io/smallrye/faulttolerance/core/util/SetBasedExceptionDecision.java:80 | following `getCause()` from a throwable only reaches throwables of the heap; zero steps reach the throwable itself |
| Throwables.Chain | implementation/core/src/main/java/io/smallrye/faulttolerance/core/util/SetBasedExceptionDecision.java:69-84 | the cycle-guarded walk terminates (the unvisited part of the heap shrinks); it visits no throwable twice and none already seen; it starts at the current throwable when that one is unseen |
| Throwables.ChainIsCauseChain | implementation/core/src/main/java/io/smallrye/faulttolerance/core/util/SetBasedExceptionDecision.java:69-84 | even on a cyclic chain, the walk visits exactly the throwables reachable from `e` by repeated `getCause()` |
| Throwables.ChainMatchesIffSomeCause | implementation/core/src/main/java/io/smallrye/faulttolerance/core/util/SetBasedExceptionDecision.java:69-84 | the walk finds a class of the set exactly when some throwable of the cause chain has such a class |
| Decisions.NewSetBasedExceptionDecision | implementation/core/src/main/java/io/smallrye/faulttolerance/core/util/SetBasedExceptionDecision.java:20-27 | a null considered-failure set, then a null considered-expected set, is rejected with its message; otherwise the decision keeps both sets and the mode, and its "non-default" flags are "failure set is not all" and "expected set is not empty" |
| Decisions.SetBasedExceptionDecision.IsConsideredExpected | implementation/core/src/main/java/io/smallrye/faulttolerance/core/util/SetBasedExceptionDecision.java:29-39 | dispatches on the mode; in both, an own class in the expected set gives expected, and failure is reported only when some throwable of the cause chain is in the failure set (full tables: `DefaultModeDecision`, `CauseChainDecision`) |
| Decisions.SetBasedExceptionDecision.IsConsideredExpectedDefault | implementation/core/src/main/java/io/smallrye/faulttolerance/core/util/SetBasedExceptionDecision.java:41-49 | an own class in the expected set gives expected; otherwise failure exactly when the own class is in the failure set (see `ExpectedWins`, `DefaultModeDecision`) |
| Decisions.SetBasedExceptionDecision.IsConsideredExpectedWithCauseChain | implementation/core/src/main/java/io/smallrye/faulttolerance/core/util/SetBasedExceptionDecision.java:51-67 | an own class in the expected set gives expected; an expected match in the chain gives expected unless the non-"all" failure set includes the own class; failure only when the chain holds a failure match (full characterisation: `CauseChainDecision`) |
| Decisions.Includes | implementation/core/src/main/java/io/smallrye/faulttolerance/core/util/SetBasedExceptionDecision.java:69-84 | the loop returns true exactly when some throwable of the cause chain of `e` has a class in the set; it modifies nothing |
| Decisions.ExpectedWins | implementation/core/src/main/java/io/smallrye/faulttolerance/core/util/SetBasedExceptionDecision.java:29-53 | in both modes, a throwable whose own class is considered expected is expected, whatever the failure set says |
| Decisions.DefaultModeDecision | implementation/core/src/main/java/io/smallrye/faulttolerance/core/util/SetBasedExceptionDecision.java:41-49 | plain mode: expected exactly when the class is in the expected set or not in the failure set |
| Decisions.DefaultModeIgnoresCauses | implementation/core/src/main/java/io/smallrye/faulttolerance/core/util/SetBasedExceptionDecision.java:41-49 | plain mode depends on the throwable's own class only, never on its causes |
| Decisions.CauseChainDecision | implementation/core/src/main/java/io/smallrye/faulttolerance/core/util/SetBasedExceptionDecision.java:51-67 | cause-chain mode: failure exactly when the own class is not expected and either the non-"all" failure set includes the own class, or no cause is expected while some cause is a failure |
| Decisions.TopLevelFailureShortcut | implementation/core/src/main/java/io/smallrye/faulttolerance/core/util/SetBasedExceptionDecision.java:55-56 | cause-chain mode with a non-"all" failure set: a top-level failure match gives failure even when a deeper cause is expected |
| Decisions.AllFailureDefersToCauses | implementation/core/src/main/java/io/smallrye/faulttolerance/core/util/SetBasedExceptionDecision.java:25-66 | cause-chain mode with the "all" failure set: the shortcut is skipped and the throwable is expected exactly when some throwable of its chain is expected |
| Decisions.ExpectedCauseWins | implementation/core/src/main/java/io/smallrye/faulttolerance/core/util/SetBasedExceptionDecision.java:59-64 | cause-chain mode: an expected cause anywhere in the chain beats failure matches anywhere in the chain, unless the top-level shortcut applies |
| Decisions.NoMatchIsExpected | implementation/core/src/main/java/io/smallrye/faulttolerance/core/util/SetBasedExceptionDecision.java:59-66 | cause-chain mode: when no throwable of the chain is in either set, the throwable is expected |
| Decisions.ModesAgreeWithoutCause | implementation/core/src/main/java/io/smallrye/faulttolerance/core/util/SetBasedExceptionDecision.java:41-67 | for a throwable without a cause, both modes give the same answer |
| Decisions.EmptySetsExpectEverything | implementation/core/src/main/java/io/smallrye/faulttolerance/core/util/SetBasedExceptionDecision.java:41-66 | a decision built from two empty sets considers every throwable expected, in both modes and whatever its cause chain |
| GuardCommon.CreateSetOfThrowables | implementation/apiimpl/src/main/java/io/smallrye/faulttolerance/apiimpl/GuardCommon.java:112-117 | a null or zero-length array gives the empty set, which includes nothing; any other array gives the set built from its classes |
| GuardCommon.NullAndEmptyArraysAgree | implementation/apiimpl/src/main/java/io/smallrye/faulttolerance/apiimpl/GuardCommon.java:113 | a null array and an empty array give the same set |
| GuardCommon.CreateExceptionDecision | implementation/apiimpl/src/main/java/io/smallrye/faulttolerance/apiimpl/GuardCommon.java:100-110 | with a predicate: a predicate-based decision that calls a throwable expected exactly when the user predicate says it is not a failure, whatever the arrays; without one: a valid set-based decision in cause-chain mode, with failure set from `consideredFailure` and expected set from `consideredExpected` |
| GuardCommon.NoFailureClassesMeansAllExpected | implementation/apiimpl/src/main/java/io/smallrye/faulttolerance/apiimpl/GuardCommon.java:108-117 | without a predicate and with a null or empty considered-failure array, every throwable is considered expected |
| GuardCommon.CreateResultDecision | implementation/apiimpl/src/main/java/io/smallrye/faulttolerance/apiimpl/GuardCommon.java:90-98 | with a predicate: a predicate-based decision that calls a value expected exactly when the user predicate says it is not a failure; without one: the always-expected decision |
| CircuitBreakerEvents.StateTransition.TargetState | implementation/core/src/main/java/io/smallrye/faulttolerance/core/circuit/breaker/CircuitBreakerEvents.java:13-24 | each transition's target state is the state its name points at: TO_CLOSED to CLOSED, TO_OPEN to OPEN, TO_HALF_OPEN to HALF_OPEN |
| CircuitBreakerEvents.Finished.Outcome | implementation/core/src/main/java/io/smallrye/faulttolerance/core/circuit/breaker/CircuitBreakerEvents.java:26-37 | each finished event's result is the `Result` of the same name |
| CircuitBreakerEvents.ResultHasThreeValues | implementation/core/src/main/java/io/smallrye/faulttolerance/core/circuit/breaker/CircuitBreakerEvents.java:7-11 | `Result` has exactly the three distinct values SUCCESS, FAILURE and PREVENTED |
| CircuitBreakerEvents.TargetStateIsBijection | implementation/core/src/main/java/io/smallrye/faulttolerance/core/circuit/breaker/CircuitBreakerEvents.java:14-16 | `targetState` is injective and every state is the target of exactly one transition |
| CircuitBreakerEvents.FinishedOutcomeIsBijection | implementation/core/src/main/java/io/smallrye/faulttolerance/core/circuit/breaker/CircuitBreakerEvents.java:27-29 | `Finished.result` is injective and every result is reported by exactly one finished event |

## Left out

- `GuardCommon.guard`, `asyncSupport` and `asyncInvocation`: reflection on generic types, the async-support registry and future plumbing, none of which is part of this model.
- `SetOfThrowables`: its membership rule (exact class or subclass), `create`, `isAll` and `isEmpty` are not part of this model. Membership is an arbitrary predicate and `Coherent()` is an assumption about the flags. `EMPTY` is assumed to include no class, with `isEmpty` true and `isAll` false; its code is not part of this model.
- `PredicateBasedExceptionDecision`, `PredicateBasedResultDecision` and `ResultDecision.ALWAYS_EXPECTED` are not part of this model. They are taken to answer with their predicate, and with `true`, as their names and the comments at their call sites say.
- A user predicate that throws is not modelled; predicates are total.
- `isConsideredExpected(null)` is not modelled: the throwable is always an object of the heap. In the source a null throwable throws at `e.getClass()`, except in cause-chain mode with an empty expected set and the "all" failure set, where it is considered expected.
- `Throwable.getCause()` in the JDK returns `null` for a throwable that is its own cause. The model keeps such a self-reference, and the cycle guard stops the walk there. The answer is the same.
- The type of the exception thrown by `checkNotNull` is not part of this model; only its message is kept.
- `Finished.Outcome`: the Java field is named `result`. Inside `Finished` the name `Result` would hide the `Result` type, so the model names it `Outcome`.
- `FaultToleranceEvent`, the marker interface the event enums implement, is not modelled.
- Immutability ("final fields fixed at construction") is not a lemma. It holds by construction, because every entity is an immutable datatype and `Includes` has no `modifies` clause.
- `ThreadSleepDelay` (a wrapper over `Thread.sleep`), `Timing` (the wall clock), `CoreLogger` (logging) and the bulkhead, retry, timeout and circuit-breaker engines: they are sleeping, clocks, logging or concurrency, or their sources are not part of this model.
- The test classes and test services (bulkhead, fallback-and-retry, metrics, timeout and CDI tests): they exercise threads, timing and framework wiring.
