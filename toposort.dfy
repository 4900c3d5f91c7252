/** Kahn's topological sort as both headers run it: seed a queue with every
    name of in-degree 0, demand exactly one, then pop names in queue order,
    push each onto the result stack and decrement the in-degree of every name
    it includes, queueing those that reach 0. Names left with a non-zero
    in-degree mean a cycle. */
module Toposort {
  import opened Basics
  import opened Graph

  /** `order` lists every key of `out` once, each after every fragment that
      includes it (the stack of the source, bottom first). */
  ghost predicate IsTopoOrder(out: Edges, order: seq<string>)
  {
    Distinct(order) && Elems(order) == out.Keys && Ordered(out, order)
  }

  /** Each name of `order` comes after every fragment that includes it. */
  ghost predicate Ordered(out: Edges, order: seq<string>)
  {
    forall j :: 0 <= j < |order| ==> IncludersBefore(out, order, j)
  }

  /** Every fragment including `order[j]` occurs before position `j`. */
  ghost predicate IncludersBefore(out: Edges, order: seq<string>, j: int)
    requires 0 <= j < |order|
  {
    Preds(out, order[j]) <= Elems(order[..j])
  }

  /** The names no fragment includes. */
  function Roots(inDeg: map<string, nat>): set<string>
  {
    set x | x in inDeg && inDeg[x] == 0
  }

  /** Every member of `L` is included by a member of `L`. */
  ghost predicate SelfFed(out: Edges, L: set<string>)
  {
    forall x :: x in L ==> Preds(out, x) * L != {}
  }

  /** In a graph with a topological order, every non-empty set of fragments
      holds one that no other member includes; so a self-fed set, which is
      what Kahn's algorithm leaves behind on a cycle, rules any order out. */
  lemma OrderedGraphHasNoSelfFedSet(out: Edges, order: seq<string>, L: set<string>)
    requires IsTopoOrder(out, order) && L != {} && L <= out.Keys
    ensures !SelfFed(out, L)
  {
    if SelfFed(out, L) {
      NoneBefore(out, order, L, |order|);
    }
  }

  /** No prefix of a topological order meets a self-fed set. */
  lemma {:induction false} NoneBefore(out: Edges, order: seq<string>, L: set<string>, n: nat)
    requires IsTopoOrder(out, order) && SelfFed(out, L) && n <= |order|
    ensures Elems(order[..n]) * L == {}
  {
    if n > 0 {
      NoneBefore(out, order, L, n - 1);
      var x := order[n - 1];
      assert IncludersBefore(out, order, n - 1);
      assert Preds(out, x) * L == {};
      assert x !in L;
      assert Elems(order[..n]) == Elems(order[..n - 1]) + {x} by {
        assert order[..n] == order[..n - 1] + [x];
      }
    }
  }

  /** Removing one member of `a` that `b` lacks. */
  lemma CardMinusOne(a: set<string>, b: set<string>, y: string)
    requires y in a && y !in b
    ensures |a - b| == |a - (b + {y})| + 1
  {
    assert a - b == (a - (b + {y})) + {y};
  }

  /** A difference of size 0 means inclusion. */
  lemma NoneLeft(a: set<string>, b: set<string>)
    requires |a - b| == 0
    ensures a <= b
  {
    forall o | o in a
      ensures o in b
    {
      assert o !in a - b;
    }
  }

  /** A fragment not yet on an ordered stack includes nothing already on it. */
  lemma NotYetSorted(out: Edges, prev: seq<string>, from: string)
    requires from in out && from !in Elems(prev)
    requires Ordered(out, prev)
    ensures forall t :: t in out[from] ==> t !in Elems(prev)
  {
    forall t, j | t in out[from] && 0 <= j < |prev|
      ensures prev[j] != t
    {
      assert IncludersBefore(out, prev, j);
      assert from in Preds(out, t);
      assert Elems(prev[..j]) <= Elems(prev);
    }
  }

  /** Every name on an ordered stack has no includer left off it. */
  lemma SortedAreDone(out: Edges, sorted: seq<string>)
    requires Ordered(out, sorted)
    ensures forall y :: y in Elems(sorted) ==> Preds(out, y) - Elems(sorted) == {}
  {
    forall j | 0 <= j < |sorted|
      ensures Preds(out, sorted[j]) - Elems(sorted) == {}
    {
      assert IncludersBefore(out, sorted, j);
      assert Elems(sorted[..j]) <= Elems(sorted);
    }
  }

  /** When Kahn's queue runs dry with a name still of non-zero in-degree, the
      unsorted names form a non-empty self-fed set. */
  lemma CycleLeft(out: Edges, sorted: seq<string>, degs: map<string, nat>, x: string)
    requires KahnState(out, sorted, [], degs)
    requires x in degs && degs[x] != 0
    ensures out.Keys - Elems(sorted) != {} && SelfFed(out, out.Keys - Elems(sorted))
  {
    UnstackedWait(out, sorted, degs);
    StackedAreZero(out, sorted, degs);
    LeftoverSelfFed(out, Elems(sorted));
    assert x in out.Keys - Elems(sorted);
  }

  /** With the queue empty, every unstacked name still has an unstacked
      includer. */
  lemma UnstackedWait(out: Edges, sorted: seq<string>, degs: map<string, nat>)
    requires KahnState(out, sorted, [], degs)
    ensures forall y :: y in out && y !in Elems(sorted) ==> Preds(out, y) - Elems(sorted) != {}
  {
    forall y | y in out && y !in Elems(sorted)
      ensures Preds(out, y) - Elems(sorted) != {}
    {
      assert degs[y] != 0;
      assert degs[y] == Pending(out, Elems(sorted))[y];
    }
  }

  /** Every stacked name has count 0. */
  lemma StackedAreZero(out: Edges, sorted: seq<string>, degs: map<string, nat>)
    requires KahnState(out, sorted, [], degs)
    ensures forall y :: y in degs && degs[y] != 0 ==> y !in Elems(sorted)
  {
    SortedAreDone(out, sorted);
    forall y | y in Elems(sorted)
      ensures degs[y] == 0
    {
      assert degs[y] == Pending(out, Elems(sorted))[y];
    }
  }

  /** Names each of which has an includer outside `done` form, outside
      `done`, a self-fed set. */
  lemma LeftoverSelfFed(out: Edges, done: set<string>)
    requires forall y :: y in out && y !in done ==> Preds(out, y) - done != {}
    ensures SelfFed(out, out.Keys - done)
  {
    var L := out.Keys - done;
    forall y | y in L
      ensures Preds(out, y) * L != {}
    {
      var f :| f in Preds(out, y) - done;
      assert f in Preds(out, y) * L;
    }
  }

  /** Pushing a name all of whose includers are already stacked keeps the
      stack ordered. */
  lemma PushKeepsOrder(out: Edges, prev: seq<string>, from: string)
    requires Ordered(out, prev) && Preds(out, from) <= Elems(prev)
    ensures Ordered(out, prev + [from])
  {
    var s := prev + [from];
    forall j | 0 <= j < |s|
      ensures IncludersBefore(out, s, j)
    {
      if j < |prev| {
        assert IncludersBefore(out, prev, j);
        assert s[..j] == prev[..j];
      } else {
        assert s[..j] == prev;
      }
    }
  }

  /** The loop invariant of Kahn's algorithm: `sorted` is an ordered stack,
      `degs` counts each name's includers not yet stacked, and `queue` holds
      exactly the unstacked names whose count is 0. */
  ghost predicate KahnState(out: Edges, sorted: seq<string>, queue: seq<string>, degs: map<string, nat>)
  {
    && degs == Pending(out, Elems(sorted))
    && Distinct(sorted) && Distinct(queue)
    && Elems(sorted) <= out.Keys && Elems(queue) <= out.Keys
    && Elems(sorted) !! Elems(queue)
    && (forall x :: x in queue ==> degs[x] == 0)
    && (forall x :: x in out && x !in Elems(sorted) && degs[x] == 0 ==> x in queue)
    && Ordered(out, sorted)
  }

  /** For every key of `out`, how many of its includers are not in `done`. */
  ghost function Pending(out: Edges, done: set<string>): map<string, nat>
  {
    map x | x in out :: |Preds(out, x) - done|
  }

  /** The seeding loop of `toposort`: every name of in-degree 0, once each. */
  method Seed(inDeg: map<string, nat>) returns (queue: seq<string>)
    ensures Distinct(queue) && Elems(queue) == Roots(inDeg)
    ensures |queue| == |Roots(inDeg)|
  {
    queue := [];
    var rest := inDeg.Keys;
    while rest != {}
      invariant rest <= inDeg.Keys
      invariant Distinct(queue) && Elems(queue) == Roots(inDeg) - rest
      decreases rest
    {
      var x :| x in rest;
      if inDeg[x] == 0 {
        assert Elems(queue + [x]) == Elems(queue) + {x};
        queue := queue + [x];
      }
      rest := rest - {x};
    }
    DistinctCard(queue);
  }

  /** One round of the main loop of `toposort`: pop the queue's front, stack
      it, and decrement the in-degree of each name it includes, queueing those
      that reach 0. */
  method Visit(out: Edges, sorted0: seq<string>, queue0: seq<string>, degs0: map<string, nat>)
    returns (sorted: seq<string>, queue: seq<string>, degs: map<string, nat>)
    requires TargetsAreKeys(out) && KahnState(out, sorted0, queue0, degs0) && queue0 != []
    ensures KahnState(out, sorted, queue, degs)
    ensures sorted == sorted0 + [queue0[0]]
    ensures queue0[0] !in Elems(sorted0) && Elems(sorted) == Elems(sorted0) + {queue0[0]}
  {
    var from := queue0[0];
    queue := queue0[1..];
    sorted := sorted0 + [from];
    ghost var done := Elems(sorted);
    ghost var want := Pending(out, done);
    FrontIsReady(out, sorted0, queue0, degs0);
    StackFront(out, sorted0, from);
    PendingAfterVisit(out, Elems(sorted0), from);
    PendingKeys(out, done);
    PendingKeys(out, Elems(sorted0));
    QueueAfterPop(out, sorted0, queue0, degs0);
    queue, degs := Release(out, from, done, want, queue, degs0);
  }

  /** The queue's front is a key, not stacked yet, with every includer stacked. */
  lemma FrontIsReady(out: Edges, sorted0: seq<string>, queue0: seq<string>, degs0: map<string, nat>)
    requires KahnState(out, sorted0, queue0, degs0) && queue0 != []
    ensures queue0[0] in out && queue0[0] !in Elems(sorted0) && Preds(out, queue0[0]) <= Elems(sorted0)
  {
    var from := queue0[0];
    assert from in Elems(queue0);
    assert degs0[from] == 0;
    NoneLeft(Preds(out, from), Elems(sorted0));
  }

  /** Stacking a ready name keeps the stack ordered and duplicate-free, and
      nothing the name includes is on the stack yet. */
  lemma StackFront(out: Edges, sorted0: seq<string>, from: string)
    requires Ordered(out, sorted0) && Distinct(sorted0) && Elems(sorted0) <= out.Keys
    requires from in out && from !in Elems(sorted0) && Preds(out, from) <= Elems(sorted0)
    ensures var s := sorted0 + [from];
            && Ordered(out, s) && Distinct(s) && Elems(s) <= out.Keys
            && Elems(s) == Elems(sorted0) + {from}
            && out[from] !! Elems(s)
  {
    PushKeepsOrder(out, sorted0, from);
    NotYetSorted(out, sorted0, from);
    assert Elems(sorted0 + [from]) == Elems(sorted0) + {from};
  }

  /** Popping the queue's front: the rest still holds, without duplicates,
      every unstacked name of count 0 other than the front. */
  lemma QueueAfterPop(out: Edges, sorted0: seq<string>, queue0: seq<string>, degs0: map<string, nat>)
    requires Distinct(queue0) && Elems(queue0) <= out.Keys && Elems(sorted0) !! Elems(queue0)
    requires degs0.Keys == out.Keys
    requires forall x :: x in queue0 ==> degs0[x] == 0
    requires forall x :: x in out && x !in Elems(sorted0) && degs0[x] == 0 ==> x in queue0
    requires queue0 != []
    ensures var q := queue0[1..]; var done := Elems(sorted0) + {queue0[0]};
            && Distinct(q) && Elems(q) <= out.Keys && done !! Elems(q)
            && (forall x :: x in q ==> degs0[x] == 0)
            && (forall x :: x in out && x !in done && degs0[x] == 0 ==> x in q)
  {
    assert Elems(queue0) == Elems(queue0[1..]) + {queue0[0]};
  }

  /** The pending counts cover exactly the keys of `out`. */
  lemma PendingKeys(out: Edges, done: set<string>)
    ensures Pending(out, done).Keys == out.Keys
  {
  }

  /** Stacking `from` lowers by one the pending count of each name it
      includes, and leaves the others alone. */
  lemma PendingAfterVisit(out: Edges, done: set<string>, from: string)
    requires from in out && from !in done
    ensures forall x {:trigger Pending(out, done)[x]} :: x in out ==>
              Pending(out, done)[x] == Pending(out, done + {from})[x] + (if x in out[from] then 1 else 0)
  {
    forall x | x in out
      ensures Pending(out, done)[x] == Pending(out, done + {from})[x] + (if x in out[from] then 1 else 0)
    {
      if x in out[from] {
        CardMinusOne(Preds(out, x), done, from);
      } else {
        assert Preds(out, x) - (done + {from}) == Preds(out, x) - done;
      }
    }
  }

  /** The inner loop of `toposort`: one in-degree decrement per name `from`
      includes, queueing each name whose count reaches 0. `want` is the count
      each name must end with and `done` the names already stacked. */
  method Release(out: Edges, from: string, ghost done: set<string>, ghost want: map<string, nat>,
                 queue0: seq<string>, degs0: map<string, nat>)
    returns (queue: seq<string>, degs: map<string, nat>)
    requires from in out && TargetsAreKeys(out) && degs0.Keys == out.Keys && want.Keys == out.Keys
    requires Distinct(queue0) && Elems(queue0) <= out.Keys && done !! Elems(queue0)
    requires forall x {:trigger degs0[x]} :: x in degs0 ==> degs0[x] == want[x] + (if x in out[from] then 1 else 0)
    requires forall x :: x in queue0 ==> degs0[x] == 0
    requires forall x :: x in out && x !in done && degs0[x] == 0 ==> x in queue0
    requires out[from] !! done
    ensures degs == want
    ensures Distinct(queue) && Elems(queue) <= out.Keys && done !! Elems(queue)
    ensures forall x :: x in queue ==> degs[x] == 0
    ensures forall x :: x in out && x !in done && degs[x] == 0 ==> x in queue
  {
    queue, degs := queue0, degs0;
    var targets := out[from];
    while targets != {}
      invariant targets <= out[from] && degs.Keys == out.Keys
      invariant Distinct(queue) && Elems(queue) <= out.Keys && done !! Elems(queue)
      invariant forall x {:trigger degs[x]} :: x in degs ==> degs[x] == want[x] + (if x in targets then 1 else 0)
      invariant forall x :: x in queue ==> degs[x] == 0
      invariant forall x :: x in out && x !in done && degs[x] == 0 ==> x in queue
      decreases targets
    {
      var to :| to in targets;
      degs := degs[to := degs[to] - 1];
      if degs[to] == 0 {
        assert Elems(queue + [to]) == Elems(queue) + {to};
        queue := queue + [to];
      }
      targets := targets - {to};
    }
  }

  /** `toposort`. `sorted` is the stack of the source, bottom first, and
      `degs` the decremented copy of the in-degrees (the builder keeps it in
      `in_degrees_`). */
  method Toposort(out: Edges, inDeg: map<string, nat>)
    returns (sorted: seq<string>, degs: map<string, nat>, err: Option<MergeError>)
    requires inDeg.Keys == out.Keys && TargetsAreKeys(out)
    requires forall x {:trigger inDeg[x]} :: x in inDeg ==> inDeg[x] == |Preds(out, x)|
    ensures err.None? || err == Some(AmbiguousEntry) || err == Some(CyclicDependency)
    ensures err == Some(AmbiguousEntry) <==> |Roots(inDeg)| != 1
    ensures err == Some(AmbiguousEntry) ==> sorted == [] && degs == inDeg
    ensures err.None? ==> IsTopoOrder(out, sorted) && sorted != [] && Roots(inDeg) == {sorted[0]}
    ensures err.None? ==> degs.Keys == out.Keys && forall x {:trigger degs[x]} :: x in degs ==> degs[x] == 0
    ensures err == Some(CyclicDependency) ==>
              out.Keys - Elems(sorted) != {} && SelfFed(out, out.Keys - Elems(sorted))
  {
    var queue := Seed(inDeg);
    sorted, degs := [], inDeg;
    if |queue| != 1 {
      return sorted, degs, Some(AmbiguousEntry);
    }
    InitialState(out, inDeg, queue);
    sorted, degs := Drain(out, queue, inDeg);
    var stuck := FindNonZero(degs);
    if stuck.Some? {
      CycleLeft(out, sorted, degs, stuck.value);
      return sorted, degs, Some(CyclicDependency);
    }
    AllStacked(out, sorted, degs);
    return sorted, degs, None;
  }

  /** The main loop of `toposort`, from the single root to an empty queue. */
  method Drain(out: Edges, queue0: seq<string>, degs0: map<string, nat>)
    returns (sorted: seq<string>, degs: map<string, nat>)
    requires TargetsAreKeys(out) && KahnState(out, [], queue0, degs0) && |queue0| == 1
    ensures KahnState(out, sorted, [], degs)
    ensures sorted != [] && sorted[0] == queue0[0]
  {
    var queue := queue0;
    sorted, degs := [], degs0;
    while queue != []
      invariant KahnState(out, sorted, queue, degs)
      invariant sorted == [] ==> queue == queue0
      invariant sorted != [] ==> sorted[0] == queue0[0]
      decreases out.Keys - Elems(sorted)
    {
      sorted, queue, degs := Visit(out, sorted, queue, degs);
    }
  }

  /** The last loop of `toposort`: a name whose count is not 0, if any. */
  method FindNonZero(degs: map<string, nat>) returns (r: Option<string>)
    ensures r.None? <==> forall x :: x in degs ==> degs[x] == 0
    ensures r.Some? ==> r.value in degs && degs[r.value] != 0
  {
    var left := degs.Keys;
    while left != {}
      invariant left <= degs.Keys
      invariant forall x :: x in degs && x !in left ==> degs[x] == 0
      decreases left
    {
      var x :| x in left;
      if degs[x] != 0 {
        return Some(x);
      }
      left := left - {x};
    }
    return None;
  }

  /** Before the main loop: nothing stacked, every count is the in-degree,
      and the queue holds the single root. */
  lemma InitialState(out: Edges, inDeg: map<string, nat>, queue: seq<string>)
    requires inDeg.Keys == out.Keys
    requires forall x {:trigger inDeg[x]} :: x in inDeg ==> inDeg[x] == |Preds(out, x)|
    requires Distinct(queue) && Elems(queue) == Roots(inDeg) && |queue| == 1
    ensures KahnState(out, [], queue, inDeg)
    ensures Roots(inDeg) == {queue[0]}
  {
    InitialCounts(out, inDeg);
    assert Elems<string>([]) == {};
    InitialQueue(out, inDeg, queue);
  }

  lemma InitialCounts(out: Edges, inDeg: map<string, nat>)
    requires inDeg.Keys == out.Keys
    requires forall x {:trigger inDeg[x]} :: x in inDeg ==> inDeg[x] == |Preds(out, x)|
    ensures inDeg == Pending(out, {})
  {
    InitialCountsAt(out, inDeg);
    PendingKeys(out, {});
    SameMaps(inDeg, Pending(out, {}));
  }

  lemma InitialCountsAt(out: Edges, inDeg: map<string, nat>)
    requires inDeg.Keys == out.Keys
    requires forall x {:trigger inDeg[x]} :: x in inDeg ==> inDeg[x] == |Preds(out, x)|
    ensures forall x {:trigger inDeg[x]} :: x in inDeg ==> inDeg[x] == Pending(out, {})[x]
  {
    assert forall x :: x in inDeg ==> Preds(out, x) - {} == Preds(out, x);
  }

  /** Maps with the same keys and the same value at each key are equal. */
  lemma SameMaps(m1: map<string, nat>, m2: map<string, nat>)
    requires m1.Keys == m2.Keys
    requires forall x {:trigger m1[x]} :: x in m1 ==> m1[x] == m2[x]
    ensures m1 == m2
  {
  }

  lemma InitialQueue(out: Edges, inDeg: map<string, nat>, queue: seq<string>)
    requires inDeg.Keys == out.Keys
    requires Elems(queue) == Roots(inDeg) && |queue| == 1
    ensures Roots(inDeg) == {queue[0]} && Elems(queue) <= out.Keys
    ensures forall x :: x in queue ==> inDeg[x] == 0
    ensures forall x :: x in out && inDeg[x] == 0 ==> x in queue
  {
    assert Elems(queue) == {queue[0]};
    forall x | x in out && inDeg[x] == 0
      ensures x in queue
    {
      assert x in Roots(inDeg);
    }
  }

  /** When the queue is empty and every count is 0, every name is stacked. */
  lemma AllStacked(out: Edges, sorted: seq<string>, degs: map<string, nat>)
    requires KahnState(out, sorted, [], degs)
    requires forall x :: x in degs ==> degs[x] == 0
    ensures IsTopoOrder(out, sorted)
  {
    forall x | x in out
      ensures x in Elems(sorted)
    {
      assert degs[x] == 0;
    }
  }
}
