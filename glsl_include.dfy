/** `mkr::glsl_include`: a registry of named GLSL fragments and the merge of
    all of them into the one fragment no other includes. */
module Include {
  import opened Basics
  import opened Scanner
  import opened Graph
  import opened Toposort
  import opened Engine
  import opened Merging

  class GlslInclude {
    /** Fragment name to fragment text. */
    var srcs: Registry

    constructor ()
      ensures srcs == map[]
    {
      srcs := map[];
    }

    /** `add`: registers a fragment; a name already registered keeps its
        first text. */
    method Add(name: string, content: string)
      modifies this
      ensures srcs == if name in old(srcs) then old(srcs) else old(srcs)[name := content]
    {
      if name !in srcs {
        srcs := srcs[name := content];
      }
    }

    /** `remove`: forgets a fragment, if registered. */
    method Remove(name: string)
      modifies this
      ensures srcs == old(srcs) - {name}
    {
      srcs := srcs - {name};
    }

    /** The first loop of `merge`: every fragment's `#pragma once` flag. */
    method IncludeOnce() returns (flags: map<string, bool>)
      ensures flags == OnceFlags(srcs)
    {
      flags := map[];
      var todo := srcs.Keys;
      while todo != {}
        invariant todo <= srcs.Keys && flags.Keys == srcs.Keys - todo
        invariant forall n :: n in flags ==> flags[n] == HasPragmaOnce(srcs[n])
        decreases todo
      {
        var name :| name in todo;
        flags := flags[name := HasPragmaOnce(srcs[name])];
        todo := todo - {name};
      }
    }

    /** `merge`: fails on an included name that is not registered, on other
        than exactly one entry fragment, and on a cycle; otherwise returns a
        merge of the registry under the multiline `#pragma once` flags. */
    method Merge() returns (r: Result<string>)
      ensures Outcome(srcs, OnceFlags(srcs), r)
    {
      var once := IncludeOnce();
      var edges := GetOutEdges(srcs);
      if edges.Err? {
        MissingFailure(srcs, edges.error.name);
        return Err(edges.error);
      }
      var out := edges.value;
      OutEdgesAreGraph(srcs, out);
      var inEdges := GetInEdges(out);
      var outDegrees := GetDegrees(srcs, out);
      var inDegrees := GetDegrees(srcs, inEdges);
      InDegreeCountsIncluders(srcs, out, inEdges, inDegrees);
      RootsAreEntries(srcs, inDegrees);
      var sorted, _, err := Toposort.Toposort(out, inDegrees);
      if err == Some(AmbiguousEntry) {
        return Err(AmbiguousEntry);
      }
      if err.Some? {
        SelfFedMeansCyclic(out, out.Keys - Elems(sorted));
        return Err(CyclicDependency);
      }
      var content, modified, subs, dels := Assemble(srcs, out, once, sorted);
      MergedOutcome(srcs, once, sorted, modified, subs, dels, content);
      return Ok(content);
    }
  }
}
