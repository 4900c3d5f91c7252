/** `mkr::glsl_builder`: the same merge as `glsl_include`, run as a chain of
    stages that keep their tables in the object's fields. It differs in
    reading `#pragma once` only at the very start of a fragment. */
module Builder {
  import opened Basics
  import opened Scanner
  import opened Graph
  import opened Toposort
  import opened Engine
  import opened Merging

  /** `r` is `e` after `e[n]` has been read, for each of `names`, through
      the default-inserting subscript: missing names get an empty set. */
  ghost predicate Defaulted(r: Edges, e: Edges, names: set<string>)
  {
    && r.Keys == e.Keys + names
    && forall n :: n in r ==> r[n] == if n in e then e[n] else {}
  }

  /** `edges[name].size()`: the subscript inserts an empty set for a name
      without one. */
  method SizeAt(edges: Edges, name: string) returns (after: Edges, size: nat)
    ensures after == if name in edges then edges else edges[name := {}]
    ensures name in after && size == |after[name]|
  {
    after := edges;
    if name !in after {
      after := after[name := {}];
    }
    size := |after[name]|;
  }

  /** One table's half of `find_degrees`: the size of `edges[name]` for
      every registered name. */
  method Degrees(names: set<string>, edges: Edges) returns (after: Edges, degrees: map<string, nat>)
    ensures Defaulted(after, edges, names)
    ensures degrees.Keys == names && forall n :: n in degrees ==> degrees[n] == |after[n]|
  {
    after, degrees := edges, map[];
    var todo := names;
    while todo != {}
      invariant todo <= names
      invariant Defaulted(after, edges, names - todo)
      invariant degrees.Keys == names - todo && forall n :: n in degrees ==> degrees[n] == |after[n]|
      decreases todo
    {
      var name :| name in todo;
      var size;
      after, size := SizeAt(after, name);
      degrees := degrees[name := size];
      todo := todo - {name};
    }
    assert names - todo == names;
  }

  /** Default insertion changes nothing on a table that has every name. */
  lemma DefaultedKeeps(r: Edges, e: Edges, names: set<string>)
    requires names <= e.Keys && Defaulted(r, e, names)
    ensures r == e
  {
  }

  /** After `find_degrees`, the in-edge table has an entry, the set of
      includers, for every registered name, and the in-degrees count them. */
  lemma DegreesCountIncluders(keys: set<string>, out: Edges, in0: Edges, ins: Edges, degs: map<string, nat>)
    requires out.Keys == keys && TargetsAreKeys(out)
    requires forall t :: t in in0 <==> Preds(out, t) != {}
    requires forall t :: t in in0 ==> in0[t] == Preds(out, t)
    requires Defaulted(ins, in0, keys)
    requires degs.Keys == keys && forall n :: n in degs ==> degs[n] == |ins[n]|
    ensures ins.Keys == keys && forall n :: n in ins ==> ins[n] == Preds(out, n)
    ensures forall n :: n in degs ==> degs[n] == |Preds(out, n)|
  {
    forall t | t in in0
      ensures t in keys
    {
      var f :| f in Preds(out, t);
    }
    forall n | n in ins
      ensures ins[n] == Preds(out, n)
    {
      if n !in in0 {
        assert Preds(out, n) == {};
      }
    }
  }

  /** What `find_degrees` leaves for `toposort`: the out-edge table
      unchanged and in-degrees that count each fragment's includers, zero
      exactly for the entries. */
  lemma DegreesReady(srcs: Registry, out: Edges, in0: Edges, out1: Edges, ins: Edges, degs: map<string, nat>,
                     outDegs: map<string, nat>)
    requires out == OutEdgesOf(srcs) && TargetsAreKeys(out)
    requires forall t :: t in in0 <==> Preds(out, t) != {}
    requires forall t :: t in in0 ==> in0[t] == Preds(out, t)
    requires Defaulted(out1, out, srcs.Keys) && Defaulted(ins, in0, srcs.Keys)
    requires degs.Keys == srcs.Keys && forall n :: n in degs ==> degs[n] == |ins[n]|
    requires outDegs.Keys == srcs.Keys && forall n :: n in outDegs ==> outDegs[n] == |out1[n]|
    ensures out1 == out && degs.Keys == out.Keys
    ensures ins == IncluderTable(srcs.Keys, out) && outDegs == OutDegreeTable(out)
    ensures forall x {:trigger degs[x]} :: x in degs ==> degs[x] == |Preds(out, x)|
    ensures Roots(degs) == Entries(srcs)
  {
    DefaultedKeeps(out1, out, srcs.Keys);
    DegreesCountIncluders(srcs.Keys, out, in0, ins, degs);
    TablesOfGraph(srcs.Keys, out, ins, outDegs);
    RootsAreEntries(srcs, degs);
  }

  /** Tables that agree with the graph entry by entry are its tables. */
  lemma TablesOfGraph(names: set<string>, out: Edges, ins: Edges, outDegs: map<string, nat>)
    requires out.Keys == names
    requires ins.Keys == names && forall n :: n in ins ==> ins[n] == Preds(out, n)
    requires outDegs.Keys == names && forall n :: n in outDegs ==> outDegs[n] == |out[n]|
    ensures ins == IncluderTable(names, out) && outDegs == OutDegreeTable(out)
  {
  }

  /** The in-edge table `find_degrees` leaves: an entry for every registered
      name, holding exactly its includers. */
  function IncluderTable(names: set<string>, out: Edges): map<string, set<string>>
  {
    map n | n in names :: Preds(out, n)
  }

  /** The out-degrees: for every fragment, the number of names it includes. */
  function OutDegreeTable(out: Edges): map<string, nat>
  {
    map n | n in out :: |out[n]|
  }

  /** `ins` is the exact inverse of `out`, keyed by the included names. */
  ghost predicate IsInEdges(out: Edges, ins: Edges)
  {
    && (forall t :: t in ins <==> Preds(out, t) != {})
    && (forall t :: t in ins ==> ins[t] == Preds(out, t))
  }

  /** `degs` holds, for every fragment of the graph `out`, the number of
      its includers: what `toposort` starts from. */
  ghost predicate CountsIncluders(out: Edges, degs: map<string, nat>)
  {
    degs.Keys == out.Keys && TargetsAreKeys(out) && forall x :: x in degs ==> degs[x] == |Preds(out, x)|
  }

  /** Every in-degree has been counted down to zero, as after a complete run of Kahn's loop. */
  ghost predicate Drained(degs: map<string, nat>, names: set<string>)
  {
    degs.Keys == names && forall x :: x in degs ==> degs[x] == 0
  }

  /** What `toposort` leaves behind, from the in-degrees `degs0` it started
      with: a stack `sorted`, the decremented in-degrees `degs` and a verdict.
      Two or more entries (or none) are refused before anything is pushed;
      success is a topological order headed by the only entry, with every
      in-degree counted down to zero; a cycle leaves a non-empty set of
      unsorted fragments each of which is included by another of them. */
  ghost predicate SortOutcome(out: Edges, degs0: map<string, nat>, sorted: seq<string>,
                              degs: map<string, nat>, e: Option<MergeError>)
  {
    && (e.None? || e == Some(AmbiguousEntry) || e == Some(CyclicDependency))
    && (e == Some(AmbiguousEntry) <==> |Roots(degs0)| != 1)
    && (e == Some(AmbiguousEntry) ==> sorted == [] && degs == degs0)
    && (e.None? ==> IsTopoOrder(out, sorted) && sorted != [] && Roots(degs0) == {sorted[0]})
    && (e.None? ==> Drained(degs, out.Keys))
    && (e == Some(CyclicDependency) ==> out.Keys - Elems(sorted) != {} && SelfFed(out, out.Keys - Elems(sorted)))
  }

  /** What `toposort`'s verdict means for the registry: a failure as
      promised, or a topological order whose first name is the only entry. */
  lemma SortVerdict(srcs: Registry, out: Edges, degs: map<string, nat>, sorted: seq<string>,
                    degs1: map<string, nat>, e: Option<MergeError>)
    requires NoMissing(srcs) && out == OutEdgesOf(srcs) && Roots(degs) == Entries(srcs)
    requires SortOutcome(out, degs, sorted, degs1, e)
    ensures e.Some? ==> Failure(srcs, e.value)
    ensures e.None? ==> IsTopoOrder(out, sorted) && sorted != [] && Entries(srcs) == {sorted[0]}
  {
    if e == Some(AmbiguousEntry) {
      AmbiguousFailure(srcs);
    } else if e == Some(CyclicDependency) {
      SelfFedMeansCyclic(out, out.Keys - Elems(sorted));
      CyclicFailure(srcs);
    }
  }

  /** What a successful `toposort` leaves: a topological order of the graph
      headed by the only entry, and every in-degree counted down to zero. */
  ghost predicate SortedGraph(srcs: Registry, out: Edges, sorted: seq<string>, degs: map<string, nat>)
  {
    IsTopoOrder(out, sorted) && sorted != [] && Entries(srcs) == {sorted[0]} && Drained(degs, srcs.Keys)
  }

  /** `SortVerdict` with the drained in-degrees, argued separately on each
      of the three values of the verdict. */
  lemma OrderVerdict(srcs: Registry, out: Edges, degs: map<string, nat>, sorted: seq<string>,
                     degs1: map<string, nat>, e: Option<MergeError>)
    requires NoMissing(srcs) && out == OutEdgesOf(srcs) && Roots(degs) == Entries(srcs)
    requires SortOutcome(out, degs, sorted, degs1, e)
    ensures e.Some? ==> Failure(srcs, e.value)
    ensures e.None? ==> SortedGraph(srcs, out, sorted, degs1)
  {
    if e.None? {
      SortVerdict(srcs, out, degs, sorted, degs1, e);
    } else if e == Some(AmbiguousEntry) {
      SortVerdict(srcs, out, degs, sorted, degs1, e);
    } else {
      SortVerdict(srcs, out, degs, sorted, degs1, e);
    }
  }

  /** The end of `build`: the verdict of the stages, or the substitution
      loop over the sorted stack and the removal of `#pragma once` lines. */
  method Finish(srcs: Registry, once: map<string, bool>, out: Edges, sorted: seq<string>, e: Option<MergeError>)
    returns (r: Result<string>)
    requires once.Keys == srcs.Keys
    requires e.Some? ==> Failure(srcs, e.value)
    requires e.None? ==> NoMissing(srcs) && out == OutEdgesOf(srcs) && TargetsAreKeys(out)
    requires e.None? ==> IsTopoOrder(out, sorted) && sorted != [] && Entries(srcs) == {sorted[0]}
    ensures Outcome(srcs, once, r)
    ensures r.Ok? <==> e.None?
  {
    if e.Some? {
      return Err(e.value);
    }
    var content, modified, subs, dels := Assemble(srcs, out, once, sorted);
    MergedOutcome(srcs, once, sorted, modified, subs, dels, content);
    return Ok(content);
  }

  class GlslBuilder {
    /** Fragment name to fragment text. */
    var srcs: Registry
    var inEdges: Edges
    var outEdges: Edges
    var inDegrees: map<string, nat>
    var outDegrees: map<string, nat>
    /** The sorted stack, bottom first. */
    var sorted: seq<string>
    var pragmaOnce: map<string, bool>

    constructor ()
      ensures srcs == map[] && inEdges == map[] && outEdges == map[]
      ensures inDegrees == map[] && outDegrees == map[] && sorted == [] && pragmaOnce == map[]
    {
      srcs, inEdges, outEdges := map[], map[], map[];
      inDegrees, outDegrees, sorted, pragmaOnce := map[], map[], [], map[];
    }

    /** `get`: the registered text of `name`, or the empty text. */
    function Get(name: string): (r: string)
      reads this
      ensures name in srcs ==> r == srcs[name]
      ensures name !in srcs ==> r == ""
    {
      if name in srcs then srcs[name] else ""
    }

    /** `add`: registers a fragment; a name already registered keeps its
        first text, and no other name changes. */
    method Add(name: string, content: string)
      modifies this`srcs
      ensures srcs == if name in old(srcs) then old(srcs) else old(srcs)[name := content]
      ensures Get(name) == if name in old(srcs) then old(Get(name)) else content
      ensures forall n :: n != name ==> Get(n) == old(Get(n))
    {
      if name !in srcs {
        srcs := srcs[name := content];
      }
    }

    /** `find_pragma_once`: every fragment's flag, a marker at its start. */
    method FindPragmaOnce()
      modifies this`pragmaOnce
      ensures pragmaOnce == StartFlags(srcs)
    {
      pragmaOnce := map[];
      var todo := srcs.Keys;
      while todo != {}
        invariant todo <= srcs.Keys && pragmaOnce.Keys == srcs.Keys - todo
        invariant forall n :: n in pragmaOnce ==> pragmaOnce[n] == HasPragmaOnceAtStart(srcs[n])
        decreases todo
      {
        var name :| name in todo;
        pragmaOnce := pragmaOnce[name := HasPragmaOnceAtStart(srcs[name])];
        todo := todo - {name};
      }
    }

    /** `find_edges`: the include graph and its inverse, or the first
        included name that is not registered; the out-edge table then holds
        the fragments scanned before the failure and the in-edge table is
        empty. */
    method FindEdges() returns (err: Option<MergeError>)
      modifies this`outEdges, this`inEdges
      ensures err.None? <==> NoMissing(srcs)
      ensures err.Some? ==> err.value.MissingSource? && err.value.name !in srcs
      ensures err.Some? ==> exists f :: f in outEdges && err.value.name in outEdges[f]
      ensures outEdges.Keys <= srcs.Keys && forall n :: n in outEdges ==> outEdges[n] == Includes(srcs[n])
      ensures err.Some? ==> inEdges == map[]
      ensures err.None? ==> IsOutEdges(srcs, outEdges) && TargetsAreKeys(outEdges)
      ensures err.None? ==> forall t :: t in inEdges <==> Preds(outEdges, t) != {}
      ensures err.None? ==> forall t :: t in inEdges ==> inEdges[t] == Preds(outEdges, t)
    {
      outEdges, inEdges := map[], map[];
      var missing;
      outEdges, missing := ScanEdges(srcs);
      if missing.Some? {
        return Some(MissingSource(missing.value));
      }
      inEdges := GetInEdges(outEdges);
      return None;
    }

    /** `find_degrees`: the size of every registered name's edge sets; the
        subscripts insert an empty set for a name without one. */
    method FindDegrees()
      modifies this`outEdges, this`inEdges, this`outDegrees, this`inDegrees
      ensures Defaulted(outEdges, old(outEdges), srcs.Keys) && Defaulted(inEdges, old(inEdges), srcs.Keys)
      ensures outDegrees.Keys == srcs.Keys && forall n :: n in outDegrees ==> outDegrees[n] == |outEdges[n]|
      ensures inDegrees.Keys == srcs.Keys && forall n :: n in inDegrees ==> inDegrees[n] == |inEdges[n]|
    {
      outEdges, outDegrees := Degrees(srcs.Keys, outEdges);
      inEdges, inDegrees := Degrees(srcs.Keys, inEdges);
    }

    /** `toposort`: Kahn's sort over the fields, decrementing `inDegrees` in
        place and leaving the sorted stack in `sorted`. */
    method Sort() returns (err: Option<MergeError>)
      requires CountsIncluders(outEdges, inDegrees)
      modifies this`sorted, this`inDegrees
      ensures SortOutcome(outEdges, old(inDegrees), sorted, inDegrees, err)
    {
      sorted := [];
      var s, d, e := Toposort.Toposort(outEdges, inDegrees);
      err := e;
      if e != Some(AmbiguousEntry) {
        // Kahn's loop ran: it pushed `s` and decremented the in-degrees to `d`.
        sorted, inDegrees := s, d;
      }
    }

    /** The stages of `build` between `find_pragma_once` and the
        substitution loop: `find_edges`, then the ordering stages, each
        stopping the build on its failure. */
    method Stages() returns (e: Option<MergeError>)
      modifies this`outEdges, this`inEdges, this`outDegrees, this`inDegrees, this`sorted
      ensures e.Some? ==> Failure(srcs, e.value)
      ensures e.None? ==> NoMissing(srcs) && outEdges == OutEdgesOf(srcs) && TargetsAreKeys(outEdges)
      ensures e.None? ==> IsTopoOrder(outEdges, sorted) && sorted != [] && Entries(srcs) == {sorted[0]}
      ensures e.None? ==> Drained(inDegrees, srcs.Keys)
      ensures NoMissing(srcs) ==> outEdges == OutEdgesOf(srcs) && inEdges == IncluderTable(srcs.Keys, outEdges) && outDegrees == OutDegreeTable(outEdges)
    {
      e := FindEdges();
      if e.Some? {
        ghost var f :| f in outEdges && e.value.name in outEdges[f];
        assert f in srcs && e.value.name in Includes(srcs[f]);
        MissingFailure(srcs, e.value.name);
        return;
      }
      OutEdgesAreGraph(srcs, outEdges);
      e := Order();
    }

    /** `find_degrees` over the include graph: it leaves the in-edge table
        and the out-degrees of the graph, and in-degrees that count each
        fragment's includers, zero exactly for the entries. */
    method CountDegrees()
      requires NoMissing(srcs) && outEdges == OutEdgesOf(srcs) && TargetsAreKeys(outEdges)
      requires IsInEdges(outEdges, inEdges)
      modifies this`outEdges, this`inEdges, this`outDegrees, this`inDegrees
      ensures outEdges == old(outEdges)
      ensures inEdges == IncluderTable(srcs.Keys, outEdges) && outDegrees == OutDegreeTable(outEdges)
      ensures CountsIncluders(outEdges, inDegrees)
      ensures Roots(inDegrees) == Entries(srcs)
    {
      ghost var reg, out, in0 := srcs, outEdges, inEdges;
      FindDegrees();
      DegreesReady(reg, out, in0, outEdges, inEdges, inDegrees, outDegrees);
    }

    /** `find_degrees` then `toposort`, over the include graph of a registry
        whose included names are all registered. */
    method Order() returns (e: Option<MergeError>)
      requires NoMissing(srcs) && outEdges == OutEdgesOf(srcs) && TargetsAreKeys(outEdges)
      requires IsInEdges(outEdges, inEdges)
      modifies this`outEdges, this`inEdges, this`outDegrees, this`inDegrees, this`sorted
      ensures e.Some? ==> Failure(srcs, e.value)
      ensures outEdges == old(outEdges)
      ensures inEdges == IncluderTable(srcs.Keys, outEdges) && outDegrees == OutDegreeTable(outEdges)
      ensures e.None? ==> SortedGraph(srcs, outEdges, sorted, inDegrees)
    {
      CountDegrees();
      ghost var reg, out, ins, outDegs, degs := srcs, outEdges, inEdges, outDegrees, inDegrees;
      e := Sort();
      assert srcs == reg;
      assert outEdges == out;
      assert inEdges == ins && outDegrees == outDegs;
      OrderVerdict(reg, out, degs, sorted, inDegrees, e);
    }

    /** `build`: the stages in order, then the substitution loop, which
        empties the sorted stack, and the removal of `#pragma once` lines
        from the entry's finished content. */
    method Build() returns (r: Result<string>)
      modifies this`pragmaOnce, this`outEdges, this`inEdges, this`outDegrees, this`inDegrees, this`sorted
      ensures pragmaOnce == StartFlags(srcs) && Outcome(srcs, pragmaOnce, r)
      ensures r.Ok? ==> sorted == [] && Drained(inDegrees, srcs.Keys)
      ensures NoMissing(srcs) ==> outEdges == OutEdgesOf(srcs) && inEdges == IncluderTable(srcs.Keys, outEdges) && outDegrees == OutDegreeTable(outEdges)
    {
      FindPragmaOnce();
      var e := Stages();
      var reg, once, out, stack, degs := srcs, pragmaOnce, outEdges, sorted, inDegrees;
      ghost var ins, outDegs := inEdges, outDegrees;
      assert e.None? ==> Drained(degs, reg.Keys);
      assert NoMissing(reg) ==> out == OutEdgesOf(reg) && ins == IncluderTable(reg.Keys, out) && outDegs == OutDegreeTable(out);
      if e.None? {
        // The substitution loop pops every name off the stack.
        sorted := [];
      }
      assert srcs == reg && pragmaOnce == once && inDegrees == degs;
      assert outEdges == out && inEdges == ins && outDegrees == outDegs;
      r := Finish(reg, once, out, stack, e);
    }
  }
}
