# mkr_glsl_include in Dafny

A verified model of the include-merging core of `mkr::glsl_include` and
its older twin `mkr::glsl_builder`. Both take a registry of named GLSL
fragments in which `#include <name>` lines refer to other fragments. They
merge the fragments into one text in five steps:

1. scan each fragment for directive lines and for a `#pragma once` marker;
2. build the include graph and its inverse, rejecting an included name
   that has no source;
3. count in-degrees and run Kahn's topological sort, rejecting a registry
   with other than one entry fragment (a fragment no other fragment
   includes) and rejecting cycles;
4. pop the sorted stack leaves-first, splicing each included fragment's
   finished text over its first directive line and deleting the other
   directive lines its single replace-all pass finds (see "## Findings"),
   while a `#pragma once` fragment is spliced only into the first of its
   includers to be popped;
5. strip the `#pragma once` lines from the entry's finished text.

## Files

- `basics.dfy` (module `Basics`): `Option`, the error datatype `MergeError`
  (`MissingSource(name)`, `AmbiguousEntry`, `CyclicDependency`) that
  replaces the thrown `std::runtime_error`s, and `Result`.
- `patterns.dfy` (`Patterns`): the fixed ECMAScript patterns written out as
  matchers over `seq<char>`. It covers `^` under the `multiline` flag, the
  greedy `[\s]*`, `[\s]+` and `[\s\r\n]*` runs, and the name class
  `[a-zA-z0-9_.]` exactly as written. That class's range `A-z` also admits
  `[`, `\`, `]`, `^` and `` ` ``. On top of the matchers it models
  `regex_search`, `regex_replace` with `format_first_only`, and
  `regex_replace` of every match.
- `scanner.dfy` (`Scanner`): both `has_pragma_once` variants, `get_name` /
  `extract_name`, `get_includes` / `find_includes` and the final
  `#pragma once` removal.
- `graph.dfy` (`Graph`): `get_out_edges`, `get_in_edges` and `get_degrees`
  as loops over maps and sets.
- `toposort.dfy` (`Toposort`): Kahn's sort with its queue, result stack and
  decremented in-degree copy. Both headers use it.
- `engine.dfy` (`Engine`): the substitution loop of `merge` / `build`.
- `merging.dfy` (`Merging`): what a merge promises, stated once for both
  headers. `Merged` relates a registry to a merged text, `Failure` gives the
  meaning of each error, and `Outcome` combines the two.
- `glsl_include.dfy` (`Include`): class `GlslInclude` with field `srcs`, and
  `Add`, `Remove` and `Merge`.
- `glsl_builder.dfy` (`Builder`): class `GlslBuilder` with the header's
  fields. Its stage methods clear and refill those fields. It also has
  `Get`, `Add` and `Build`.

The iteration order of `unordered_map` and `unordered_set` is modelled as
an arbitrary choice (`:|`) in every loop. So each contract holds for every
iteration order.

For the registry
`{base: "#include <a>\n#include <b>\nEND", a: "#pragma once\nAONLY", b: "#pragma once\nBONLY\n#include <a>"}`
one might expect the merged text `AONLY\nBONLY\n\nEND`, each fragment
taking the place of its own directive line. The code gives something else,
and the model follows the code:

1. `a` is spliced into `b`, giving `#pragma once\nBONLY\n#pragma once\nAONLY`.
2. In `base`, `b`'s first directive takes that text. `a`'s directive is
   deleted together with its line break.
3. The `#pragma once` lines are removed only at the very end.

The code therefore returns `BONLY\nAONLY\nEND`.

## Model

| member | source | states |
|---|---|---|
| Patterns.DirectiveMatchComplete | src/glsl_include.h:22 | text of the shape `[\s]*#include[\s]+<name>` at a position, with `name` made of name characters, is a match of the directive pattern there, ending after the trailing white space |
| Patterns.HeadMatchComplete | src/glsl_include.h:188 | the dynamically built head pattern for `name` matches wherever `[\s]*#include[\s]+<name>` stands, and stops at `>` so the line break stays |
| Patterns.LineMatchComplete | src/glsl_include.h:194 | the deletion pattern for `name` matches the same text plus the following white space, newlines and indentation |
| Patterns.SearchLeftmost | src/glsl_include.h:44 | `regex_search` returns the leftmost anchored match: no position before it (or before the end, when it finds none) holds one |
| Patterns.SearchFindsAt | src/glsl_include.h:44 | a search that starts at an anchored match returns that match |
| Patterns.ReplaceFirstSplices | src/glsl_include.h:189 | replacing the first match splices the replacement over exactly the leftmost line-start match and changes nothing when there is none |
| Patterns.DeleteAllIdentity | src/glsl_include.h:203 | deleting every match leaves a text unchanged exactly when no line start holds a match, and otherwise shortens it |
| Scanner.HasPragmaOnce | src/glsl_include.h:28-31 | a fragment is marked exactly when some line start holds a `#pragma once` match (multiline flag) |
| Scanner.PragmaAtStartShape | src/glsl_builder.h:23-27 | without the multiline flag a fragment is marked exactly when it opens with optional white space, `#pragma`, white space and `once` |
| Scanner.BuilderMarksFewer | src/glsl_builder.h:24 | every fragment the builder marks is marked by `glsl_include` as well |
| Scanner.BuilderMissesLaterMarker | src/glsl_builder.h:24 | the converse fails: `//\n#pragma once\n` is marked by `glsl_include` but not by the builder |
| Scanner.RemovePragmasChanges | src/glsl_builder.h:29-32 | the final `#pragma once` removal changes a text exactly when it is marked, and then shortens it |
| Scanner.GetNameMeaning | src/glsl_include.h:33-37 | the result is the name of name characters between the leftmost `<` and `>` that enclose one: no earlier position holds a `<name>`; there is none exactly when the text holds no `<name>` |
| Scanner.NameOfDirective | src/glsl_builder.h:34-39 | applied to the text of a directive match, the extractor yields exactly the name between its brackets |
| Scanner.GetIncludes | src/glsl_include.h:39-52 | the loop of left-to-right non-overlapping matches returns the set of names whose directives the scan finds, each a well-formed name with a directive site at a line start |
| Scanner.IncludesExactly | src/glsl_include.h:39-52 | a name is reported iff some line start holds a directive match naming it: repeats collapse to one entry, and a directive after other text on its line is never reported on its own account |
| Scanner.IncludedHasSite | src/glsl_builder.h:41-55 | every reported name has a site that both the substitution pattern and the deletion pattern of the merge find |
| Scanner.AsWrittenReportsSiteless | src/glsl_include.h:43-50 | as written, the restart after a match anchors `^` mid-line, so `#include <a> #include <b>\n` reports `b` although no line start holds its directive (see Findings) |
| Graph.ScanEdges | src/glsl_include.h:56-67 | the scan stops at the first unregistered edge target and returns it with the table filled so far; without one, every registered name maps to the names it includes and every target is registered |
| Graph.GetOutEdges | src/glsl_include.h:54-69 | fails with `MissingSource(t)` exactly when some fragment includes an unregistered `t`, naming such a `t`; otherwise the table is keyed by exactly the registered names |
| Graph.FirstMissing | src/glsl_include.h:62-66 | returns an included name without a source, or nothing exactly when every included name is registered |
| Graph.GetInEdges | src/glsl_include.h:71-80 | the in-edges are the exact inverse: `f in in[t]` iff `t in out[f]`, and a name gets an entry only if some fragment includes it |
| Graph.AddIncluder | src/glsl_include.h:75-77 | one more fragment's targets each gain it as an includer |
| Graph.GetDegrees | src/glsl_include.h:82-90 | degrees are keyed by exactly the registered names, each the size of its edge set or 0 |
| Graph.InDegreeCountsIncluders | src/glsl_include.h:168 | with the in-edges, each registered name's in-degree is the number of fragments that include it |
| Toposort.Seed | src/glsl_include.h:97-101 | the queue holds every name of in-degree 0, once each |
| Toposort.Visit | src/glsl_include.h:108-115 | one pop keeps Kahn's invariant: the stack is ordered and duplicate-free, the counts are the includers not yet stacked, and the queue holds exactly the unstacked names whose count is 0 |
| Toposort.Release | src/glsl_include.h:111-115 | each name the popped fragment includes has its count lowered by one, and those that reach 0 are queued |
| Toposort.Drain | src/glsl_include.h:107-116 | the main loop ends with an empty queue, the invariant kept, and the root at the bottom of the stack |
| Toposort.FindNonZero | src/glsl_include.h:118-122 | finds a name whose count is not 0, or reports that none exists |
| Toposort.Toposort | src/glsl_include.h:93-125 | `AmbiguousEntry` iff other than one name has in-degree 0; on success the stack lists every name once with each includer before the names it includes, headed by the root, and every count is 0; on `CyclicDependency` the unsorted names form a non-empty set each of whose members is included by another member |
| Toposort.OrderedGraphHasNoSelfFedSet | src/glsl_include.h:118-122 | a graph with a topological order has no such self-fed set, so the cycle verdict is never wrong |
| Toposort.CycleLeft | src/glsl_include.h:118-122 | when the queue runs dry while some count is not 0, the unsorted names are self-fed |
| Engine.SubstituteFirsts | src/glsl_include.h:182-190 | every included name is marked visited; exactly the names that are not (`#pragma once` and already visited) get their finished text spliced over their first directive |
| Engine.DeleteDirectives | src/glsl_include.h:193-196 | the result is one replace-all pass per included name, each name once, in the order walked; each pass deletes the directive lines of that name it finds |
| Engine.IndentedRepeatSurvives | src/glsl_include.h:192-196 | as written, the pass for `a` over `#include <a>\n  #include <a>\n` leaves `#include <a>\n`, a directive line of `a` (see Findings) |
| Engine.Purged | src/glsl_include.h:192-196 | repeated passes leave no directive line of the name at any line start, and change the text exactly when it holds one |
| Engine.ProcessFragment | src/glsl_include.h:181-199 | a fragment's finished text is its source after those substitutions and then those deletions |
| Engine.DeletedShrinks | src/glsl_include.h:192-196 | deleting directive lines never lengthens a text |
| Engine.IncludedArePopped | src/glsl_include.h:175-179 | everything a popped fragment includes was popped and finished before it |
| Engine.StepOnce | src/glsl_include.h:184-187 | a `#pragma once` fragment is fresh only while no finished fragment includes it, so it is spliced into at most one fragment |
| Engine.Substitute | src/glsl_include.h:175-200 | after the loop every fragment is finished from its source; each fragment splices exactly its fresh names: every name it includes, except a `#pragma once` name that a fragment popped before it already includes; so a marked name goes into the first includer popped and no other, an unmarked one into every includer, every included name somewhere; the result is the entry's finished text |
| Engine.StepSplicedFirst | src/glsl_include.h:184-187 | the fragment just popped splices exactly its fresh names, and the fragments popped before it keep theirs |
| Engine.Pop | src/glsl_include.h:176-199 | one round of the loop keeps its invariant |
| Merging.Assemble | src/glsl_include.h:171-206 | the substitution loop and the final `#pragma once` removal produce a merged text in the sense of `Merged`, which fixes for each fragment the names it splices |
| Merging.OnceGoesToFirstPopped | src/glsl_include.h:184-187 | in a merged text, fragment `sorted[j]` splices a `#pragma once` name it includes exactly when no fragment after it in `sorted` (popped before it) includes that name |
| Merging.FailureOrMergeable | src/glsl_include.h:63-122 | every registry either meets one of the three failures or is mergeable (no missing source, exactly one entry, acyclic), never both |
| Merging.MergedSingle | src/glsl_include.h:175-206 | a single fragment that includes nothing merges to itself without its `#pragma once` lines |
| Merging.RootsAreEntries | src/glsl_include.h:97-101 | the names of in-degree 0 are exactly the fragments no fragment includes |
| Merging.SelfFedMeansCyclic | src/glsl_include.h:118-122 | a non-empty self-fed set rules out every topological order |
| Merging.StartFlagsFewer | src/glsl_builder.h:57-65 | every fragment the builder flags is flagged by `glsl_include` |
| Merging.OnceFlags | src/glsl_include.h:158-163 | each registered fragment's flag says whether some line start holds `#pragma once` |
| Include.GlslInclude.IncludeOnce | src/glsl_include.h:158-163 | the first loop of `merge` computes those flags |
| Include.GlslInclude.Add | src/glsl_include.h:138-140 | a new name is registered; an existing name keeps its first text |
| Include.GlslInclude.Remove | src/glsl_include.h:146-151 | the name is erased if present, with no other change |
| Include.GlslInclude.Merge | src/glsl_include.h:157-207 | never writes the registry; fails with exactly the failure the registry meets (a missing source naming an unregistered included name, an ambiguous entry, a cycle), and otherwise returns a merged text, in which each `#pragma once` fragment is spliced into the first of its includers popped and no other |
| Builder.GlslBuilder.Get | src/glsl_builder.h:149-152 | the stored text, or `""` when the name is absent |
| Builder.GlslBuilder.Add | src/glsl_builder.h:145-147 | a new name is registered; an existing name keeps its first text; `Get` of every other name is unchanged |
| Builder.GlslBuilder.FindPragmaOnce | src/glsl_builder.h:57-65 | refills the flags with the start-of-text marker test for every registered name |
| Builder.GlslBuilder.FindEdges | src/glsl_builder.h:67-93 | clears and refills both tables; on a missing source they keep the fragments scanned so far and no in-edges; otherwise the out-edges are the include graph and the in-edges its exact inverse |
| Builder.GlslBuilder.FindDegrees | src/glsl_builder.h:95-105 | each registered name's out- and in-degree is the size of its table entry, the subscript inserting an empty entry where there was none |
| Builder.Degrees | src/glsl_builder.h:100-104 | one table's degrees, with the default-inserting subscript |
| Builder.SizeAt | src/glsl_builder.h:102-103 | `edges[name].size()` inserts an empty entry for a missing name |
| Builder.DegreesReady | src/glsl_builder.h:95-105 | after `find_degrees` the out-edge table is unchanged, the in-edge table has an entry of exactly the includers for every registered name, the out-degrees are the numbers of included names, and each in-degree counts the fragment's includers, zero exactly for the entries |
| Builder.GlslBuilder.CountDegrees | src/glsl_builder.h:95-105 | `find_degrees` over the include graph leaves the out-edges unchanged, the in-edge table and out-degrees of the graph, and in-degrees counting the includers, zero exactly for the entries |
| Builder.GlslBuilder.Sort | src/glsl_builder.h:107-138 | resets the stack; `AmbiguousEntry` iff other than one name has in-degree 0, with nothing decremented; on success the stack is a topological order and every `in_degrees_` entry is 0; on a cycle the unsorted names are self-fed |
| Builder.SortVerdict | src/glsl_builder.h:118-137 | the sort's verdict is the failure the registry meets, or a topological order headed by the only entry |
| Builder.GlslBuilder.Stages | src/glsl_builder.h:155-158 | `find_edges`, `find_degrees` and `toposort` either fail as the registry dictates or leave the include graph, a topological order and drained in-degrees; whenever no source is missing, the out-edges are the include graph, every registered name has an in-edge entry holding exactly its includers, and its out-degree is the number of names it includes |
| Builder.GlslBuilder.Order | src/glsl_builder.h:157-158 | `find_degrees` then `toposort`, over a registry whose included names are all registered: the failure the registry meets or a topological order with drained in-degrees, and in every case the out-edges unchanged, an in-edge entry of exactly the includers and the out-degree for every registered name |
| Builder.Finish | src/glsl_builder.h:160-195 | the substitution loop and `remove_pragma_once` turn the stages' result into the promised outcome, a merged text in which each fragment splices exactly its fresh names |
| Builder.GlslBuilder.Build | src/glsl_builder.h:154-196 | the flags are the start-of-text flags; the result is the promised failure or a merged text under those flags; on success the stack is drained to empty and every in-degree is 0; whenever no source is missing, the edge tables and out-degrees are those of the include graph |

## Left out

- Hash-container iteration order is an arbitrary choice in the model, so the
  merged text is not determined among fragments at the same depth. Only the
  ordering and `#pragma once` invariants are proved, not the exact text.
  Calling `merge` twice on an unchanged registry yields the same text only
  because the real containers iterate deterministically, which the model
  does not capture.
- The replacement text in `regex_replace` is inserted literally. The model
  assumes fragment contents hold no `$`, which `regex_replace` would treat as
  a format escape (`$&`, `$1`, `$$`).
- Names are spliced into the built patterns of src/glsl_include.h:188,194
  and src/glsl_builder.h:177,183 unescaped, and the name class admits
  `.`, `[`, `\`, `]` and `^`, which are regex syntax there. The model
  compares the name literally, so it does not capture that:
  - a `.` in a name matches any character;
  - an unbalanced `[` makes the `std::regex` constructor throw `regex_error`
    in the middle of the merge;
  - a `^` inside a name makes the pattern unmatchable, so the directive
    stays and the fragment is never inserted;
  - a name such as `a\b` compiles to a word-boundary assertion and matches
    the directive `<a>`.
- Exception message texts are left out. Each error is a `MergeError` value,
  and `MissingSource` carries the missing name.
- `operator[]` on the maps of `merge` and `build` (`include_once`,
  `visited`, `modified`, `srcs_`) inserts default entries. That is not
  modelled. Every key of `include_once`, `modified` and `srcs_` it reads is
  already present. `visited[incl]` (src/glsl_include.h:184) is read the
  first time a `#pragma once` name turns up and inserts `false`, which no
  later read can tell apart from absence; the model's set membership gives
  the same `false`. Where an insertion is visible, in the builder's
  `find_degrees`, it is modelled (`Builder.SizeAt`).
- `^` follows the ECMAScript rule as libstdc++ implements it: without the
  `multiline` flag it holds only at position 0, and with it also just after
  a line terminator. `Scanner.BuilderMissesLaterMarker` and
  `Merging.StartFlagsFewer` depend on that choice; a regex engine that
  treated `^` as multiline by default would make the two marker tests
  agree.
- Scanner.GetName: `get_name` on a text without `<name>` would call
  `substr` out of range and throw. The model returns `None` instead. The
  source never reaches that case, because it only applies `get_name` to
  directive matches (`Scanner.NameOfDirective`).
- `size_t` wrap-around of `--in_degrees_[to]` is not modelled. The counts
  are proved never to go below zero.
- Builder.GlslBuilder.Build: on a missing source its contract names the
  error but not the partial tables `find_edges` left in the fields. Those
  are stated by `FindEdges`. On an ambiguous entry or a cycle, `sorted` and
  `inDegrees` are stated by `Sort`, not by `Build`.
- Scanner.GetIncludes: models the corrected scan (see Findings), which
  reports a directive only when it stands on its own line. As written,
  src/glsl_include.h:44 anchors `^` at the restart position, so a second
  directive on the same line is reported too. Every member built on
  `Scanner.Includes` inherits this, as the next lines say.
- Graph.ScanEdges: for `{base: "#include <a> #include <zz>\n", a: "A"}` the
  source reports `zz` as a missing source; the model finds no missing name.
- Graph.GetOutEdges: the same registry fails in the source with
  `MissingSource("zz")` and succeeds in the model. With `zz: "Z"` added, the
  source gives `zz` an includer, and the model makes `zz` a second entry.
- Builder.GlslBuilder.FindEdges: as `Graph.ScanEdges`, a same-line second
  directive naming an unregistered fragment is not reported missing.
- Builder.GlslBuilder.Stages: its failures are over the corrected scan, so
  the registry above passes `find_edges` in the model. With `zz: "Z"` added,
  it fails with `AmbiguousEntry` in the model, while the source succeeds.
- Include.GlslInclude.Merge: for `{base: "#include <a> #include <zz>\n",
  a: "A"}` the source throws "Cannot include missing source zz." while the
  model returns `Ok("A #include <zz>\n")`. With `zz: "Z"` added, the source
  succeeds and the model fails with `AmbiguousEntry`.
- Builder.GlslBuilder.Build: inherits both consequences from `Stages`, as
  `Include.GlslInclude.Merge` does.
- Toposort.Visit and Engine.Pop: the source binds a reference to
  `topo_queue.front()` / `sorted.top()` (src/glsl_include.h:107-109 and
  176-177, src/glsl_builder.h:122-124 and 165-166), calls `pop()`, and then
  reads the destroyed string, which is undefined behaviour. The model takes
  a copy of the name before the pop, which is what the code evidently
  intends.
- The file I/O of the test harness and the test fixtures are outside the
  model.

## Findings

| source | as written | input that shows it | evidently intended | confidence | as-written member | corrected member |
|---|---|---|---|---|---|---|
| src/glsl_include.h:43-50 | After each match, `get_includes` (and `find_includes` at src/glsl_builder.h:46-53) restarts `regex_search` on the sub-range after the match. `^` holds at the first position of that sub-range, so a directive that follows another on the same line is reported. The substitution and deletion patterns anchor only at real line starts, so in the fragment's own text they never find that directive. It becomes a dependency, and its `#include` text can stay in the merged output. | `#include <a> #include <b>\n` reports both `a` and `b` | a directive counts only when it stands on its own line | not executed; high for the sub-range anchoring of `regex_search` | Scanner.AsWrittenReportsSiteless | Scanner.IncludesExactly |
| src/glsl_include.h:192-196 | The deletion pattern ends in `[\s\r\n]*`, which also takes the next line's indentation. `regex_replace` resumes its search there, mid-line, where `^` does not hold. A repeat of the directive on the next, indented line is therefore not deleted, although the comment at src/glsl_include.h:192 says duplicates are deleted. | `#include <a>\n  #include <a>\n`, deleting for `a`, leaves `#include <a>\n` | no directive line of an included name is left | not executed; high for the resume position of `regex_replace` | Engine.IndentedRepeatSurvives | Engine.Purged |

The rest of the model uses the corrected scanner (`Scanner.Includes`). The
merge keeps the deletion as written (`Engine.Deleted`), because a
fragment's finished text is stated as the code computes it. `Engine.Purged`
is the intended deletion, and its property is proved on its own.
