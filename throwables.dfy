/**
 * Throwables and their cause chains.
 *
 * A throwable is a heap object: its identity is a reference, and it carries its
 * runtime class and the reference returned by `getCause()` (or `null`). The heap
 * is a finite map from references to objects, so a cause chain may loop back on
 * itself, which is what the cycle guard in the exception decision is there for.
 */
module Throwables {
  import opened Wrappers

  /** Object identity: two references denote the same throwable exactly when they are equal. */
  type Ref = nat

  /** The runtime class of a throwable, `e.getClass()`. */
  type ClassId = string

  /** A throwable object: its class and the result of `getCause()` (`None` is `null`). */
  datatype Throwable = Throwable(cls: ClassId, cause: Option<Ref>)

  type Heap = map<Ref, Throwable>

  /** Every `getCause()` of a throwable in the heap is `null` or again a throwable in the heap. */
  ghost predicate WellFormed(h: Heap) {
    forall r :: r in h && h[r].cause.Some? ==> h[r].cause.value in h
  }

  /**
   * The throwable reached from `e` by calling `getCause()` `k` times, or `None`
   * once a `null` cause has been met. This is the reference definition of
   * "a throwable in the cause chain of `e`".
   */
  function CauseAt(h: Heap, e: Ref, k: nat): (r: Option<Ref>)
    requires WellFormed(h) && e in h
    ensures r.Some? ==> r.value in h
    ensures k == 0 ==> r == Some(e)
    decreases k
  {
    if k == 0 then Some(e)
    else match h[e].cause
      case None => None
      case Some(c) => CauseAt(h, c, k - 1)
  }

  /** `t` is in the cause chain of `e`: some number of `getCause()` calls lead from `e` to `t`. */
  ghost predicate InCauseChain(h: Heap, e: Ref, t: Ref)
    requires WellFormed(h) && e in h
  {
    exists k: nat :: CauseAt(h, e, k) == Some(t)
  }

  /** The `k`-th throwable of the cause chain of `e` exists and its class satisfies `matches`. */
  ghost predicate CauseMatches(h: Heap, e: Ref, k: nat, matches: ClassId -> bool)
    requires WellFormed(h) && e in h
  {
    CauseAt(h, e, k).Some? && matches(h[CauseAt(h, e, k).value].cls)
  }

  /**
   * The throwables a cycle-guarded walk visits, in order, when it starts at `cur`
   * having already seen `seen`: it stops at a `null` cause or at a throwable it
   * has seen before. No throwable is visited twice and none of `seen` is visited.
   */
  function Chain(h: Heap, cur: Option<Ref>, seen: set<Ref>): (path: seq<Ref>)
    requires WellFormed(h) && (cur.Some? ==> cur.value in h)
    ensures forall i :: 0 <= i < |path| ==> path[i] in h && path[i] !in seen
    ensures forall i, j :: 0 <= i < j < |path| ==> path[i] != path[j]
    ensures cur.Some? && cur.value !in seen ==> |path| > 0 && path[0] == cur.value
    decreases h.Keys - seen
  {
    if cur.None? || cur.value in seen then []
    else [cur.value] + Chain(h, h[cur.value].cause, seen + {cur.value})
  }

  /** Some throwable visited by the cycle-guarded walk from `e` has a class satisfying `matches`. */
  predicate ChainMatches(h: Heap, e: Ref, matches: ClassId -> bool)
    requires WellFormed(h) && e in h
  {
    exists i :: 0 <= i < |Chain(h, Some(e), {})| && matches(h[Chain(h, Some(e), {})[i]].cls)
  }

  /** The walk starts at `e`, so a match of `e`'s own class is a match of the walk. */
  lemma OwnClassMatches(h: Heap, e: Ref, matches: ClassId -> bool)
    requires WellFormed(h) && e in h && matches(h[e].cls)
    ensures ChainMatches(h, e, matches)
  {
    assert Chain(h, Some(e), {})[0] == e;
  }

  /** Every throwable the walk visits is reached from its start by repeated `getCause()`. */
  lemma {:induction false} ChainOnlyVisitsCauses(h: Heap, c: Ref, seen: set<Ref>, t: Ref)
    requires WellFormed(h) && c in h
    requires t in Chain(h, Some(c), seen)
    ensures InCauseChain(h, c, t)
    decreases h.Keys - seen
  {
    if t == c {
      assert CauseAt(h, c, 0) == Some(t);
    } else {
      var n := h[c].cause;
      assert Chain(h, Some(c), seen) == [c] + Chain(h, n, seen + {c});
      ChainOnlyVisitsCauses(h, n.value, seen + {c}, t);
      var k: nat :| CauseAt(h, n.value, k) == Some(t);
      assert CauseAt(h, c, k + 1) == Some(t);
    }
  }

  /** `s` contains the `getCause()` of each of its members that has one. */
  ghost predicate ClosedUnderCause(h: Heap, s: set<Ref>)
    requires s <= h.Keys
  {
    forall t :: t in s && h[t].cause.Some? ==> h[t].cause.value in s
  }

  /**
   * If every seen throwable's cause is seen or is the current one, then the seen
   * throwables together with the rest of the walk are closed under `getCause()`:
   * the walk stops only at `null` or where it would revisit a throwable.
   */
  lemma {:induction false} ChainCompletesClosure(h: Heap, cur: Option<Ref>, seen: set<Ref>)
    requires WellFormed(h) && (cur.Some? ==> cur.value in h) && seen <= h.Keys
    requires forall t :: t in seen && h[t].cause.Some? ==> h[t].cause.value in seen || h[t].cause == cur
    ensures seen + (set t | t in Chain(h, cur, seen)) <= h.Keys
    ensures ClosedUnderCause(h, seen + (set t | t in Chain(h, cur, seen)))
    decreases h.Keys - seen
  {
    if cur.None? || cur.value in seen {
      assert Chain(h, cur, seen) == [];
      assert seen + (set t | t in Chain(h, cur, seen)) == seen;
    } else {
      var v := cur.value;
      var rest := Chain(h, h[v].cause, seen + {v});
      assert Chain(h, cur, seen) == [v] + rest;
      ChainCompletesClosure(h, h[v].cause, seen + {v});
      assert (seen + {v}) + (set t | t in rest) == seen + (set t | t in Chain(h, cur, seen));
    }
  }

  /** Following `getCause()` from a member of a cause-closed set never leaves the set. */
  lemma {:induction false} CausesStayInClosure(h: Heap, s: set<Ref>, x: Ref, k: nat)
    requires WellFormed(h) && s <= h.Keys && ClosedUnderCause(h, s) && x in s
    ensures CauseAt(h, x, k).Some? ==> CauseAt(h, x, k).value in s
    decreases k
  {
    if k > 0 && h[x].cause.Some? {
      CausesStayInClosure(h, s, h[x].cause.value, k - 1);
    }
  }

  /** Every throwable of the cause chain of `e` is visited by the walk from `e`. */
  lemma CauseIsVisited(h: Heap, e: Ref, k: nat)
    requires WellFormed(h) && e in h
    ensures CauseAt(h, e, k).Some? ==> CauseAt(h, e, k).value in Chain(h, Some(e), {})
  {
    var path := Chain(h, Some(e), {});
    var s := set t | t in path;
    ChainCompletesClosure(h, Some(e), {});
    assert {} + s == s;
    assert path[0] == e && e in s;
    CausesStayInClosure(h, s, e, k);
  }

  /**
   * The cycle-guarded walk from `e` visits exactly the throwables of the cause
   * chain of `e`: those reached from `e` by calling `getCause()` some number of times.
   */
  lemma ChainIsCauseChain(h: Heap, e: Ref)
    requires WellFormed(h) && e in h
    ensures forall t: Ref :: t in Chain(h, Some(e), {}) <==> InCauseChain(h, e, t)
  {
    forall t: Ref | t in Chain(h, Some(e), {})
      ensures InCauseChain(h, e, t)
    {
      ChainOnlyVisitsCauses(h, e, {}, t);
    }
    forall t: Ref | InCauseChain(h, e, t)
      ensures t in Chain(h, Some(e), {})
    {
      var k: nat :| CauseAt(h, e, k) == Some(t);
      CauseIsVisited(h, e, k);
    }
  }

  /** The walk finds a match exactly when some throwable of the cause chain matches. */
  lemma ChainMatchesIffSomeCause(h: Heap, e: Ref, matches: ClassId -> bool)
    requires WellFormed(h) && e in h
    ensures ChainMatches(h, e, matches) <==> exists k: nat :: CauseMatches(h, e, k, matches)
  {
    var path := Chain(h, Some(e), {});
    ChainIsCauseChain(h, e);
    if ChainMatches(h, e, matches) {
      var i :| 0 <= i < |path| && matches(h[path[i]].cls);
      assert path[i] in path;
      var k: nat :| CauseAt(h, e, k) == Some(path[i]);
      assert CauseMatches(h, e, k, matches);
    }
    if exists k: nat :: CauseMatches(h, e, k, matches) {
      var k: nat :| CauseMatches(h, e, k, matches);
      var t := CauseAt(h, e, k).value;
      assert t in path;
      var i :| 0 <= i < |path| && path[i] == t;
      assert matches(h[path[i]].cls);
    }
  }
}
