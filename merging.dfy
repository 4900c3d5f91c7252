/** What a successful merge promises, stated once for both headers: the
    include graph of a registry, its single entry fragment, whether it has a
    topological order, and the relation between a registry and a merged
    text. The two implementations differ only in how they read the
    `#pragma once` marker, so the marker flags are a parameter. */
module Merging {
  import opened Basics
  import opened Patterns
  import opened Scanner
  import opened Graph
  import opened Toposort
  import opened Engine

  /** The include graph: every registered name to the names its fragment includes. */
  ghost function OutEdgesOf(srcs: Registry): Edges
  {
    map n | n in srcs :: Includes(srcs[n])
  }

  /** The fragments no fragment includes: candidates for the merged program. */
  ghost function Entries(srcs: Registry): set<string>
  {
    set n | n in srcs && Preds(OutEdgesOf(srcs), n) == {}
  }

  /** The graph can be ordered with every includer before what it includes. */
  ghost predicate Acyclic(out: Edges)
  {
    exists order :: IsTopoOrder(out, order)
  }

  /** `glsl_include`'s marker flags: a `#pragma once` line anywhere. */
  function OnceFlags(srcs: Registry): (flags: map<string, bool>)
    ensures flags.Keys == srcs.Keys
    ensures forall n :: n in flags ==> (flags[n] <==> HasLineMatch(PragmaOnce, srcs[n]))
  {
    map n | n in srcs :: HasPragmaOnce(srcs[n])
  }

  /** `glsl_builder`'s marker flags: a `#pragma once` opening the fragment. */
  function StartFlags(srcs: Registry): (flags: map<string, bool>)
    ensures flags.Keys == srcs.Keys
  {
    map n | n in srcs :: HasPragmaOnceAtStart(srcs[n])
  }

  /** The builder marks a subset of the fragments `glsl_include` marks. */
  lemma StartFlagsFewer(srcs: Registry)
    ensures forall n :: n in srcs && StartFlags(srcs)[n] ==> OnceFlags(srcs)[n]
  {
    forall n | n in srcs
      ensures StartFlags(srcs)[n] ==> OnceFlags(srcs)[n]
    {
      BuilderMarksFewer(srcs[n]);
    }
  }

  /** `text` is a merge of `srcs` under the marker flags `once`: fragments are
      finished in the reverse of a topological order whose first name is the
      only entry; each is finished as `HostDone` records; a marked name is
      spliced into at most one fragment and every included name into at least
      one; `text` is the entry's finished content with its `#pragma once`
      lines removed. */
  ghost predicate Merged(srcs: Registry, once: map<string, bool>, sorted: seq<string>,
                         modified: map<string, string>, subs: map<string, seq<string>>,
                         dels: map<string, seq<string>>, text: string)
  {
    var out := OutEdgesOf(srcs);
    && IsTopoOrder(out, sorted) && sorted != [] && Entries(srcs) == {sorted[0]}
    && modified.Keys == srcs.Keys && subs.Keys == srcs.Keys && dels.Keys == srcs.Keys
    && (forall h {:trigger HostDone(srcs, out, once, modified, subs, dels, h)} ::
          h in srcs ==> HostDone(srcs, out, once, modified, subs, dels, h))
    && OnceRespected(once, subs)
    && SplicedFirstFrom(out, once, sorted, subs, 0)
    && (forall g :: g in out && Preds(out, g) != {} ==> exists h :: h in subs && g in Elems(subs[h]))
    && text == RemovePragmas(modified[sorted[0]])
  }

  /** In a merged text, fragment `sorted[j]` splices a `#pragma once` name it
      includes exactly when none of the fragments finished before it,
      `sorted[j + 1..]`, includes that name: the marked name goes into the
      first includer popped off the stack, the last one in `sorted`. */
  lemma OnceGoesToFirstPopped(srcs: Registry, once: map<string, bool>, sorted: seq<string>,
                              modified: map<string, string>, subs: map<string, seq<string>>,
                              dels: map<string, seq<string>>, text: string, j: int, g: string)
    requires Merged(srcs, once, sorted, modified, subs, dels, text)
    requires 0 <= j < |sorted| && sorted[j] in srcs && g in Includes(srcs[sorted[j]]) && g in once && once[g]
    ensures g in Elems(subs[sorted[j]]) <==>
            forall i :: j < i < |sorted| ==> sorted[i] !in Preds(OutEdgesOf(srcs), g)
  {
    var out := OutEdgesOf(srcs);
    assert SplicedFirst(out, once, sorted, subs, j);
    var later := Elems(sorted[j + 1..]);
    if g in Reached(out, later) {
      var h :| h in later && h in out && g in out[h];
      var i :| 0 <= i < |sorted[j + 1..]| && sorted[j + 1..][i] == h;
      assert sorted[j + 1 + i] in Preds(out, g);
    } else {
      forall i | j < i < |sorted|
        ensures sorted[i] !in Preds(out, g)
      {
        assert sorted[i] == sorted[j + 1..][i - j - 1];
      }
    }
  }

  /** What both merges promise when they fail with `err`: a missing source
      exactly when a fragment includes an unregistered name (and then that
      name), an ambiguous entry exactly when every included name is
      registered but there is other than one entry, and a cycle exactly when
      there is one entry but no topological order. */
  ghost predicate Failure(srcs: Registry, err: MergeError)
  {
    && (err.MissingSource? <==> !NoMissing(srcs))
    && (err.MissingSource? ==> err.name !in srcs && exists f :: f in srcs && err.name in Includes(srcs[f]))
    && (err == AmbiguousEntry <==> NoMissing(srcs) && |Entries(srcs)| != 1)
    && (err == CyclicDependency <==> NoMissing(srcs) && |Entries(srcs)| == 1 && !Acyclic(OutEdgesOf(srcs)))
  }

  /** Every included name is registered, there is one entry and the graph
      has a topological order: the registries both merges succeed on. */
  ghost predicate Mergeable(srcs: Registry)
  {
    NoMissing(srcs) && |Entries(srcs)| == 1 && Acyclic(OutEdgesOf(srcs))
  }

  /** What both merges promise about their result `r` over the registry
      `srcs` under the marker flags `once`: the failure `r` reports, or, on
      a mergeable registry, a merged text. */
  ghost predicate Outcome(srcs: Registry, once: map<string, bool>, r: Result<string>)
  {
    match r
    case Err(err) => Failure(srcs, err)
    case Ok(text) => Mergeable(srcs) && exists sorted, modified, subs, dels :: Merged(srcs, once, sorted, modified, subs, dels, text)
  }

  /** Every registry meets exactly one of the failures or is mergeable. */
  lemma FailureOrMergeable(srcs: Registry)
    ensures Mergeable(srcs) <==> !exists err :: Failure(srcs, err)
  {
    if Mergeable(srcs) {
      forall err ensures !Failure(srcs, err) {}
    } else if !NoMissing(srcs) {
      var f, t :| f in srcs && t in Includes(srcs[f]) && t !in srcs;
      assert Failure(srcs, MissingSource(t));
    } else if |Entries(srcs)| != 1 {
      assert Failure(srcs, AmbiguousEntry);
    } else {
      assert Failure(srcs, CyclicDependency);
    }
  }

  /** Reporting an unregistered included name is the promised failure. */
  lemma MissingFailure(srcs: Registry, name: string)
    requires name !in srcs && exists f :: f in srcs && name in Includes(srcs[f])
    ensures Failure(srcs, MissingSource(name))
  {
    var f :| f in srcs && name in Includes(srcs[f]);
    assert !NoMissing(srcs);
  }

  /** Other than one entry, with every included name registered, is the
      promised failure. */
  lemma AmbiguousFailure(srcs: Registry)
    requires NoMissing(srcs) && |Entries(srcs)| != 1
    ensures Failure(srcs, AmbiguousEntry)
  {
  }

  /** No topological order, with one entry and every included name
      registered, is the promised failure. */
  lemma CyclicFailure(srcs: Registry)
    requires NoMissing(srcs) && |Entries(srcs)| == 1 && !Acyclic(OutEdgesOf(srcs))
    ensures Failure(srcs, CyclicDependency)
  {
  }

  /** A merged text of a registry whose included names are all registered
      is the promised outcome: its order makes the graph acyclic with one
      entry. */
  lemma MergedOutcome(srcs: Registry, once: map<string, bool>, sorted: seq<string>,
                      modified: map<string, string>, subs: map<string, seq<string>>,
                      dels: map<string, seq<string>>, text: string)
    requires NoMissing(srcs) && Merged(srcs, once, sorted, modified, subs, dels, text)
    ensures Outcome(srcs, once, Ok(text))
  {
    assert IsTopoOrder(OutEdgesOf(srcs), sorted);
  }

  /** The tail of both merges: the substitution loop over the sorted stack,
      then the removal of `#pragma once` lines from the entry's content. */
  method Assemble(srcs: Registry, out: Edges, once: map<string, bool>, sorted: seq<string>)
    returns (text: string, ghost modified: map<string, string>,
             ghost subs: map<string, seq<string>>, ghost dels: map<string, seq<string>>)
    requires out == OutEdgesOf(srcs) && TargetsAreKeys(out) && once.Keys == srcs.Keys
    requires IsTopoOrder(out, sorted) && sorted != [] && Entries(srcs) == {sorted[0]}
    ensures Merged(srcs, once, sorted, modified, subs, dels, text)
  {
    var content, m;
    content, m, subs, dels := Substitute(srcs, out, once, sorted);
    modified := m;
    text := RemovePragmas(content);
  }

  /** The out-edges `get_out_edges` computes are the include graph. */
  lemma OutEdgesAreGraph(srcs: Registry, out: Edges)
    requires IsOutEdges(srcs, out)
    ensures out == OutEdgesOf(srcs)
  {
  }

  /** The names of in-degree 0 are the entries. */
  lemma RootsAreEntries(srcs: Registry, inDeg: map<string, nat>)
    requires inDeg.Keys == srcs.Keys
    requires forall x :: x in inDeg ==> inDeg[x] == |Preds(OutEdgesOf(srcs), x)|
    ensures Roots(inDeg) == Entries(srcs)
  {
    forall x | x in inDeg
      ensures inDeg[x] == 0 <==> Preds(OutEdgesOf(srcs), x) == {}
    {
      if inDeg[x] == 0 {
        assert |Preds(OutEdgesOf(srcs), x)| == 0;
      }
    }
  }

  /** A non-empty self-fed set of fragments rules out every topological order. */
  lemma SelfFedMeansCyclic(out: Edges, L: set<string>)
    requires L != {} && L <= out.Keys && SelfFed(out, L)
    ensures !Acyclic(out)
  {
    if Acyclic(out) {
      var order :| IsTopoOrder(out, order);
      OrderedGraphHasNoSelfFedSet(out, order, L);
    }
  }

  /** A fragment that includes nothing, registered alone, merges to itself
      without its `#pragma once` lines, whatever the marker flags. */
  lemma {:induction false} MergedSingle(n: string, s: string, once: map<string, bool>, sorted: seq<string>,
                                        modified: map<string, string>, subs: map<string, seq<string>>,
                                        dels: map<string, seq<string>>, text: string)
    requires Includes(s) == {}
    requires Merged(map[n := s], once, sorted, modified, subs, dels, text)
    ensures text == RemovePragmas(s)
  {
    var srcs := map[n := s];
    var out := OutEdgesOf(srcs);
    assert Elems(sorted) == {n};
    assert sorted[0] in Elems(sorted);
    assert HostDone(srcs, out, once, modified, subs, dels, n);
    assert out[n] == {};
    assert Elems(subs[n]) == {} && Elems(dels[n]) == {};
    HeadInElems(subs[n]);
    HeadInElems(dels[n]);
  }

  lemma HeadInElems(s: seq<string>)
    ensures s != [] ==> s[0] in Elems(s)
  {
  }
}
