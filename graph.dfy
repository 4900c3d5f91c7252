/** The dependency graph of glsl_include.h's static helpers: the names each
    fragment includes (out-edges), the fragments that include each name
    (in-edges), and the size of each registered name's edge set (degrees).
    Hash-container iteration order is not modelled: each loop takes the next
    key by an arbitrary choice, so the contracts hold for every order. */
module Graph {
  import opened Basics
  import opened Scanner

  /** Fragment name to content (`srcs_`). */
  type Registry = map<string, string>

  /** Name to a set of names: out-edges or in-edges. */
  type Edges = map<string, set<string>>

  /** The fragments that include `x`. */
  function Preds(out: Edges, x: string): set<string>
  {
    set f | f in out && x in out[f]
  }

  /** The fragments among `done` that include `x`. */
  function PredsIn(out: Edges, done: set<string>, x: string): set<string>
  {
    set f | f in done && f in out && x in out[f]
  }

  /** No fragment includes a name that is not registered. */
  ghost predicate NoMissing(srcs: Registry)
  {
    forall f, t :: f in srcs && t in Includes(srcs[f]) ==> t in srcs
  }

  /** `out` holds, for every registered name and nothing else, the names its
      fragment includes. */
  ghost predicate IsOutEdges(srcs: Registry, out: Edges)
  {
    out.Keys == srcs.Keys && forall n :: n in srcs ==> out[n] == Includes(srcs[n])
  }

  /** Every edge target is itself a key. */
  predicate TargetsAreKeys(out: Edges)
  {
    forall f, t :: f in out && t in out[f] ==> t in out
  }

  /** The loop of `get_out_edges` (and of the builder's `find_edges`): scans
      the fragments one by one and stops at the first edge target that is not
      registered, returning it with the table as filled so far, the offending
      fragment's entry included. */
  method ScanEdges(srcs: Registry) returns (out: Edges, missing: Option<string>)
    ensures missing.None? <==> NoMissing(srcs)
    ensures missing.None? ==> IsOutEdges(srcs, out) && TargetsAreKeys(out)
    ensures out.Keys <= srcs.Keys && forall n :: n in out ==> out[n] == Includes(srcs[n])
    ensures missing.Some? ==> missing.value !in srcs && exists f :: f in out && missing.value in out[f]
  {
    out := map[];
    var todo := srcs.Keys;
    while todo != {}
      invariant todo <= srcs.Keys
      invariant out.Keys == srcs.Keys - todo
      invariant forall n :: n in out ==> out[n] == Includes(srcs[n])
      invariant forall f, t :: f in out && t in out[f] ==> t in srcs
      decreases todo
    {
      var name :| name in todo;
      var included := GetIncludes(srcs[name]);
      out := out[name := included];
      missing := FirstMissing(srcs, included);
      if missing.Some? {
        return;
      }
      todo := todo - {name};
    }
    missing := None;
  }

  /** `get_out_edges`: the include graph, or a failure naming the first
      included name found without a source. */
  method GetOutEdges(srcs: Registry) returns (r: Result<Edges>)
    ensures r.Ok? <==> NoMissing(srcs)
    ensures r.Ok? ==> IsOutEdges(srcs, r.value) && TargetsAreKeys(r.value)
    ensures r.Err? ==> r.error.MissingSource? && r.error.name !in srcs
    ensures r.Err? ==> exists f :: f in srcs && r.error.name in Includes(srcs[f])
  {
    var out, missing := ScanEdges(srcs);
    if missing.Some? {
      return Err(MissingSource(missing.value));
    }
    return Ok(out);
  }

  /** The inner loop of `get_out_edges`: some included name without a
      source, if there is one. */
  method FirstMissing(srcs: Registry, included: set<string>) returns (r: Option<string>)
    ensures r.None? <==> included <= srcs.Keys
    ensures r.Some? ==> r.value in included && r.value !in srcs
  {
    var targets := included;
    while targets != {}
      invariant targets <= included
      invariant forall t :: t in included && t !in targets ==> t in srcs
      decreases targets
    {
      var to :| to in targets;
      if to !in srcs {
        return Some(to);
      }
      targets := targets - {to};
    }
    return None;
  }

  /** Adding one more includer to the fragments already inverted. */
  lemma PredsInAdd(out: Edges, done: set<string>, from: string, x: string)
    requires from in out
    ensures PredsIn(out, done + {from}, x)
            == PredsIn(out, done, x) + (if x in out[from] then {from} else {})
  {
  }

  /** `get_in_edges`: the exact inverse of `out`; a name no fragment includes
      gets no entry. */
  method GetInEdges(out: Edges) returns (inEdges: Edges)
    ensures forall t :: t in inEdges <==> Preds(out, t) != {}
    ensures forall t :: t in inEdges ==> inEdges[t] == Preds(out, t)
    ensures forall f, t :: t in inEdges && f in inEdges[t] <==> f in out && t in out[f]
  {
    inEdges := map[];
    ghost var done: set<string> := {};
    var todo := out.Keys;
    while todo != {}
      invariant todo <= out.Keys && done == out.Keys - todo
      invariant forall t :: t in inEdges <==> PredsIn(out, done, t) != {}
      invariant forall t :: t in inEdges ==> inEdges[t] == PredsIn(out, done, t)
      decreases todo
    {
      var from :| from in todo;
      inEdges := AddIncluder(out, done, from, inEdges);
      done := done + {from};
      todo := todo - {from};
    }
    assert forall t :: PredsIn(out, done, t) == Preds(out, t);
  }

  /** The inner loop of `get_in_edges`: record `from` as an includer of
      every name it includes. */
  method AddIncluder(out: Edges, ghost done: set<string>, from: string, inEdges0: Edges) returns (inEdges: Edges)
    requires from in out
    requires forall t :: t in inEdges0 <==> PredsIn(out, done, t) != {}
    requires forall t :: t in inEdges0 ==> inEdges0[t] == PredsIn(out, done, t)
    ensures forall t :: t in inEdges <==> PredsIn(out, done + {from}, t) != {}
    ensures forall t :: t in inEdges ==> inEdges[t] == PredsIn(out, done + {from}, t)
  {
    inEdges := inEdges0;
    var targets := out[from];
    ghost var handled: set<string> := {};
    while targets != {}
      invariant targets <= out[from] && handled == out[from] - targets
      invariant forall t :: t in inEdges <==> PredsIn(out, done, t) != {} || t in handled
      invariant forall t :: t in inEdges ==> inEdges[t] == PredsIn(out, done, t) + (if t in handled then {from} else {})
      decreases targets
    {
      var to :| to in targets;
      inEdges := inEdges[to := (if to in inEdges then inEdges[to] else {}) + {from}];
      targets := targets - {to};
      handled := handled + {to};
    }
    forall t
      ensures PredsIn(out, done + {from}, t) == PredsIn(out, done, t) + (if t in out[from] then {from} else {})
    {
      PredsInAdd(out, done, from, t);
    }
  }

  /** `get_degrees`: every registered name, mapped to the size of its edge set
      (0 when it has none). */
  method GetDegrees(srcs: Registry, edges: Edges) returns (degrees: map<string, nat>)
    ensures degrees.Keys == srcs.Keys
    ensures forall n :: n in degrees ==> degrees[n] == if n in edges then |edges[n]| else 0
  {
    degrees := map[];
    var todo := srcs.Keys;
    while todo != {}
      invariant todo <= srcs.Keys && degrees.Keys == srcs.Keys - todo
      invariant forall n :: n in degrees ==> degrees[n] == if n in edges then |edges[n]| else 0
      decreases todo
    {
      var name :| name in todo;
      degrees := degrees[name := if name in edges then |edges[name]| else 0];
      todo := todo - {name};
    }
  }

  /** With the in-edges of `out`, the in-degree of every registered name is
      the number of fragments that include it. */
  lemma InDegreeCountsIncluders(srcs: Registry, out: Edges, inEdges: Edges, degrees: map<string, nat>)
    requires forall t :: t in inEdges <==> Preds(out, t) != {}
    requires forall t :: t in inEdges ==> inEdges[t] == Preds(out, t)
    requires degrees.Keys == srcs.Keys
    requires forall n :: n in degrees ==> degrees[n] == if n in inEdges then |inEdges[n]| else 0
    ensures forall n :: n in degrees ==> degrees[n] == |Preds(out, n)|
  {
    forall n | n in degrees
      ensures degrees[n] == |Preds(out, n)|
    {
      if n !in inEdges {
        assert Preds(out, n) == {};
      }
    }
  }
}
