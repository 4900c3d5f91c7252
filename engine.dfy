/** The substitution stage shared by `glsl_include::merge` and
    `glsl_builder::build`: fragments are taken off the top of the sorted stack
    (included fragments before their includers); in each, the first directive
    line of every included name is replaced by that name's finished content,
    except for a `#pragma once` name already substituted somewhere, and then
    one replace-all pass per name deletes the directive lines of those names
    that it finds (an indented line right below a deleted one escapes it, see
    `IndentedRepeatSurvives`). */
module Engine {
  import opened Basics
  import opened Patterns
  import opened Graph
  import opened Toposort

  /** `content` after the first-directive substitutions for `guests`, in that
      order, each spliced with the guest's finished content. */
  function Substituted(content: string, guests: seq<string>, modified: map<string, string>): string
    requires Elems(guests) <= modified.Keys
    decreases |guests|
  {
    if guests == [] then content
    else
      var last := guests[|guests| - 1];
      ReplaceFirst(DirectiveHead(last), Substituted(content, guests[..|guests| - 1], modified), modified[last])
  }

  /** `content` after one replace-all pass deleting the directive lines of
      each of `guests`, in that order. */
  function Deleted(content: string, guests: seq<string>): string
    decreases |guests|
  {
    if guests == [] then content
    else ReplaceAll(DirectiveLine(guests[|guests| - 1]), Deleted(content, guests[..|guests| - 1]), "")
  }

  /** The deletion AS WRITTEN does not always delete every directive line:
      the trailing `[\s\r\n]*` of the line pattern also takes the next
      line's indentation, the next search begins there, mid-line, where `^`
      does not hold, and an indented repeat of the directive survives. */
  lemma IndentedRepeatSurvives()
    ensures Deleted("#include <a>\n  #include <a>\n", ["a"]) == "#include <a>\n"
    ensures HasLineMatch(DirectiveLine("a"), "#include <a>\n")
  {
    DeletedOnce("#include <a>\n  #include <a>\n", "a");
    RepeatLeft("#include <a>\n  #include <a>\n");
    LeftStillMatches("#include <a>\n");
  }

  /** Deleting the lines of one name is one replace-all pass. */
  lemma DeletedOnce(s: string, n: string)
    ensures Deleted(s, [n]) == ReplaceAll(DirectiveLine(n), s, "")
  {
    assert [n][..0] == [];
  }

  /** In the example, the pass deletes the first line and the indentation of
      the second, and keeps the rest. */
  lemma RepeatLeft(s: string)
    requires s == "#include <a>\n  #include <a>\n"
    ensures ReplaceAll(DirectiveLine("a"), s, "") == "#include <a>\n"
  {
    var p := DirectiveLine("a");
    FirstLineDeleted(s);
    RestHasNoLineMatch(s);
    assert ReplaceAllFrom(p, s, 15, "") == s[15..];
    assert ReplaceAllFrom(p, s, 0, "") == s[0..0] + "" + ReplaceAllFrom(p, s, 15, "");
    assert s[15..] == "#include <a>\n";
  }

  /** What survives is a directive line of `a`. */
  lemma LeftStillMatches(r: string)
    requires r == "#include <a>\n"
    ensures HasLineMatch(DirectiveLine("a"), r)
  {
    assert r[0..8] == "#include" && r[10..11] == "a";
    LineMatchComplete(r, Hit(0, 0, 10, "a", 12, 12));
    assert LineStart(r, 0);
  }

  /** In the example, the first match runs from 0 to 15, the start of the
      second `#include`. */
  lemma FirstLineDeleted(s: string)
    requires s == "#include <a>\n  #include <a>\n"
    ensures Search(DirectiveLine("a"), s, 0, false) == Some(Hit(0, 0, 10, "a", 12, 15))
  {
    assert s[0..8] == "#include" && s[10..11] == "a";
    SpaceEndAt(s, 12, 15);
    LineMatchComplete(s, Hit(0, 0, 10, "a", 12, 12));
    SearchFindsAt(DirectiveLine("a"), s, 0, false);
  }

  /** In the example, no search from 15 on finds a match: the only line
      start there is the end of the text. */
  lemma RestHasNoLineMatch(s: string)
    requires s == "#include <a>\n  #include <a>\n"
    ensures Search(DirectiveLine("a"), s, 15, false).None?
  {
    var r := Search(DirectiveLine("a"), s, 15, false);
    if r.Some? {
      assert false;
    }
  }

  /** The deletion as evidently intended: the directive lines of `n` are
      deleted pass after pass until no line start holds one. */
  function Purged(n: string, s: string): (r: string)
    ensures !HasLineMatch(DirectiveLine(n), r)
    ensures r == s <==> !HasLineMatch(DirectiveLine(n), s)
    ensures |r| <= |s|
    decreases |s|
  {
    DeleteAllIdentity(DirectiveLine(n), s);
    var d := ReplaceAll(DirectiveLine(n), s, "");
    if d == s then s else Purged(n, d)
  }

  /** The included names that get substituted: all of them, except those
      marked `#pragma once` that were already visited. */
  function Fresh(included: set<string>, once: map<string, bool>, visited: set<string>): set<string>
    requires included <= once.Keys
  {
    set g | g in included && !(once[g] && g in visited)
  }

  /** Substitution reads only the finished content of the guests it splices. */
  lemma {:induction false} SubstitutedFrame(content: string, guests: seq<string>, modified: map<string, string>,
                                            k: string, v: string)
    requires Elems(guests) <= modified.Keys && k !in Elems(guests)
    ensures Substituted(content, guests, modified[k := v]) == Substituted(content, guests, modified)
    decreases |guests|
  {
    if guests != [] {
      var init := guests[..|guests| - 1];
      assert Elems(init) <= Elems(guests);
      SubstitutedFrame(content, init, modified, k, v);
    }
  }

  /** Walking one more included name adds it to the fresh ones exactly when
      it is fresh. */
  lemma FreshStep(included: set<string>, todo: set<string>, once: map<string, bool>, visited0: set<string>,
                  incl: string)
    requires included <= once.Keys && todo <= included && incl in todo
    ensures included - (todo - {incl}) == (included - todo) + {incl}
    ensures Fresh(included - (todo - {incl}), once, visited0)
            == Fresh(included - todo, once, visited0) + (if once[incl] && incl in visited0 then {} else {incl})
  {
    assert included - (todo - {incl}) == (included - todo) + {incl};
  }

  /** One more substitution, after the others. */
  lemma SubstitutedSnoc(content: string, guests: seq<string>, g: string, modified: map<string, string>)
    requires Elems(guests) <= modified.Keys && g in modified
    ensures Elems(guests + [g]) <= modified.Keys
    ensures Substituted(content, guests + [g], modified)
            == ReplaceFirst(DirectiveHead(g), Substituted(content, guests, modified), modified[g])
  {
    assert (guests + [g])[..|guests|] == guests;
  }

  /** Removing directive lines never lengthens the text. */
  lemma {:induction false} DeletedShrinks(content: string, guests: seq<string>)
    ensures |Deleted(content, guests)| <= |content|
    decreases |guests|
  {
    if guests != [] {
      var init := guests[..|guests| - 1];
      DeletedShrinks(content, init);
      DeleteAllIdentity(DirectiveLine(guests[|guests| - 1]), Deleted(content, init));
    }
  }

  /** The two loops over the included names of one fragment. `subs` and
      `dels` record the order the unordered set was walked in. */
  method ProcessFragment(content0: string, included: set<string>, once: map<string, bool>,
                         visited0: set<string>, modified: map<string, string>)
    returns (content: string, visited: set<string>, ghost subs: seq<string>, ghost dels: seq<string>)
    requires included <= once.Keys && included <= modified.Keys
    ensures visited == visited0 + included
    ensures Distinct(subs) && Elems(subs) == Fresh(included, once, visited0)
    ensures Distinct(dels) && Elems(dels) == included
    ensures Elems(subs) <= modified.Keys
    ensures content == Deleted(Substituted(content0, subs, modified), dels)
  {
    content, visited, subs := SubstituteFirsts(content0, included, once, visited0, modified);
    content, dels := DeleteDirectives(content, included);
  }

  /** The first loop: splice each fresh guest over its first directive line
      and mark it visited. */
  method SubstituteFirsts(content0: string, included: set<string>, once: map<string, bool>,
                          visited0: set<string>, modified: map<string, string>)
    returns (content: string, visited: set<string>, ghost subs: seq<string>)
    requires included <= once.Keys && included <= modified.Keys
    ensures visited == visited0 + included
    ensures Distinct(subs) && Elems(subs) == Fresh(included, once, visited0)
    ensures content == Substituted(content0, subs, modified)
  {
    content, visited, subs := content0, visited0, [];
    var todo := included;
    while todo != {}
      invariant todo <= included
      invariant visited == visited0 + (included - todo)
      invariant Distinct(subs) && Elems(subs) == Fresh(included - todo, once, visited0)
      invariant content == Substituted(content0, subs, modified)
      decreases todo
    {
      var incl :| incl in todo;
      FreshStep(included, todo, once, visited0, incl);
      if !(once[incl] && incl in visited) {
        visited := visited + {incl};
        content := ReplaceFirst(DirectiveHead(incl), content, modified[incl]);
        SubstitutedSnoc(content0, subs, incl, modified);
        assert Elems(subs + [incl]) == Elems(subs) + {incl};
        subs := subs + [incl];
      }
      todo := todo - {incl};
    }
  }

  /** The second loop: one replace-all pass per included name, deleting the
      directive lines of that name that the pass finds. */
  method DeleteDirectives(content0: string, included: set<string>)
    returns (content: string, ghost dels: seq<string>)
    ensures Distinct(dels) && Elems(dels) == included
    ensures content == Deleted(content0, dels)
  {
    content, dels := content0, [];
    var rest := included;
    while rest != {}
      invariant rest <= included
      invariant Distinct(dels) && Elems(dels) == included - rest
      invariant content == Deleted(content0, dels)
      decreases rest
    {
      var incl :| incl in rest;
      content := ReplaceAll(DirectiveLine(incl), content, "");
      assert (dels + [incl])[..|dels|] == dels;
      assert Elems(dels + [incl]) == Elems(dels) + {incl};
      dels := dels + [incl];
      rest := rest - {incl};
    }
  }

  /** The names included by at least one fragment of `hosts`. */
  function Reached(out: Edges, hosts: set<string>): set<string>
  {
    set h, g | h in hosts && h in out && g in out[h] :: g
  }

  /** Fragment `h` is finished: its content is its source with the recorded
      substitutions and deletions applied, the deletions covering every name
      it includes and the substitutions every one not marked `#pragma once`. */
  ghost predicate HostDone(srcs: Registry, out: Edges, once: map<string, bool>, modified: map<string, string>,
                           subs: map<string, seq<string>>, dels: map<string, seq<string>>, h: string)
  {
    && h in srcs && h in out && h in modified && h in subs && h in dels
    && Distinct(subs[h]) && Elems(subs[h]) <= out[h] && Elems(subs[h]) <= modified.Keys
    && Distinct(dels[h]) && Elems(dels[h]) == out[h]
    && (forall g :: g in out[h] && g in once && !once[g] ==> g in Elems(subs[h]))
    && modified[h] == Deleted(Substituted(srcs[h], subs[h], modified), dels[h])
  }

  /** A name marked `#pragma once` is substituted into at most one fragment. */
  ghost predicate OnceRespected(once: map<string, bool>, subs: map<string, seq<string>>)
  {
    forall h1, h2, g ::
      (h1 in subs && h2 in subs && g in once && once[g] && g in Elems(subs[h1]) && g in Elems(subs[h2])) ==> h1 == h2
  }

  /** Fragment `sorted[j]` splices exactly its fresh names: every name it
      includes except a `#pragma once` name that a fragment popped before it,
      one of `sorted[j + 1..]`, already includes. So a marked name goes into
      the first of its includers to be popped and into no later one. */
  ghost predicate SplicedFirst(out: Edges, once: map<string, bool>, sorted: seq<string>,
                               subs: map<string, seq<string>>, j: int)
  {
    && 0 <= j < |sorted| && sorted[j] in out && sorted[j] in subs && out[sorted[j]] <= once.Keys
    && Elems(subs[sorted[j]]) == Fresh(out[sorted[j]], once, Reached(out, Elems(sorted[j + 1..])))
  }

  /** `SplicedFirst` for every fragment popped so far, `sorted[k..]`. */
  ghost predicate SplicedFirstFrom(out: Edges, once: map<string, bool>, sorted: seq<string>,
                                   subs: map<string, seq<string>>, k: int)
  {
    forall j :: k <= j < |sorted| ==> SplicedFirst(out, once, sorted, subs, j)
  }

  /** Every name some finished fragment includes was substituted somewhere. */
  ghost predicate Covered(subs: map<string, seq<string>>, visited: set<string>)
  {
    forall g :: g in visited ==> exists h :: h in subs && g in Elems(subs[h])
  }

  /** Everything a fragment includes lies above it on the stack, so it has been
      popped and finished before the fragment itself. */
  lemma IncludedArePopped(out: Edges, sorted: seq<string>, k: nat)
    requires IsTopoOrder(out, sorted) && TargetsAreKeys(out) && 0 < k <= |sorted|
    ensures out[sorted[k - 1]] <= Elems(sorted[k..])
  {
    var name := sorted[k - 1];
    forall g | g in out[name]
      ensures g in Elems(sorted[k..])
    {
      assert g in Elems(sorted);
      var j :| 0 <= j < |sorted| && sorted[j] == g;
      assert IncludersBefore(out, sorted, j);
      assert name in Preds(out, g);
      var i :| 0 <= i < j && sorted[..j][i] == name;
      assert sorted[i] == name;
      assert sorted[k..][j - k] == g;
    }
  }

  /** The merge loop: pop every fragment off the stack, leaves first, and
      finish it. `content` is the last one finished, the bottom of the
      stack. */
  method Substitute(srcs: Registry, out: Edges, once: map<string, bool>, sorted: seq<string>)
    returns (content: string, modified: map<string, string>,
             ghost subs: map<string, seq<string>>, ghost dels: map<string, seq<string>>)
    requires IsTopoOrder(out, sorted) && sorted != [] && TargetsAreKeys(out)
    requires srcs.Keys == out.Keys && once.Keys == out.Keys
    ensures modified.Keys == out.Keys && subs.Keys == out.Keys && dels.Keys == out.Keys
    ensures content == modified[sorted[0]]
    ensures forall h :: h in out ==> HostDone(srcs, out, once, modified, subs, dels, h)
    ensures OnceRespected(once, subs)
    ensures SplicedFirstFrom(out, once, sorted, subs, 0)
    ensures forall g :: g in out && Preds(out, g) != {} ==> exists h :: h in subs && g in Elems(subs[h])
  {
    var k := |sorted|;
    var visited: set<string> := {};
    content, modified, subs, dels := "", map[], map[], map[];
    assert sorted[k..] == [];
    while k > 0
      invariant MergeState(srcs, out, once, sorted, k, content, modified, subs, dels, visited)
      decreases k
    {
      content, modified, visited, subs, dels := Pop(srcs, out, once, sorted, k, content, modified, visited, subs, dels);
      k := k - 1;
    }
    assert sorted[0..] == sorted;
    ReachedAll(out);
  }

  /** Every name some fragment includes is reached from all the fragments. */
  lemma ReachedAll(out: Edges)
    ensures forall g :: Preds(out, g) != {} ==> g in Reached(out, out.Keys)
  {
    forall g | Preds(out, g) != {}
      ensures g in Reached(out, out.Keys)
    {
      var h :| h in Preds(out, g);
    }
  }

  /** Every popped fragment is finished. */
  ghost predicate AllDone(srcs: Registry, out: Edges, once: map<string, bool>, modified: map<string, string>,
                          subs: map<string, seq<string>>, dels: map<string, seq<string>>)
  {
    forall h :: h in modified ==> HostDone(srcs, out, once, modified, subs, dels, h)
  }

  /** The bookkeeping of the merge loop once `sorted[k..]` have been popped. */
  ghost predicate Popped(srcs: Registry, out: Edges, once: map<string, bool>, sorted: seq<string>, k: int,
                         modified: map<string, string>, subs: map<string, seq<string>>,
                         dels: map<string, seq<string>>, visited: set<string>)
  {
    && IsTopoOrder(out, sorted) && TargetsAreKeys(out)
    && srcs.Keys == out.Keys && once.Keys == out.Keys
    && 0 <= k <= |sorted|
    && modified.Keys == Elems(sorted[k..]) && subs.Keys == modified.Keys && dels.Keys == modified.Keys
    && visited == Reached(out, modified.Keys)
  }

  /** The invariant of the merge loop once the fragments `sorted[k..]` have
      been popped and finished. */
  ghost predicate MergeState(srcs: Registry, out: Edges, once: map<string, bool>, sorted: seq<string>, k: int,
                             content: string, modified: map<string, string>,
                             subs: map<string, seq<string>>, dels: map<string, seq<string>>, visited: set<string>)
  {
    && Popped(srcs, out, once, sorted, k, modified, subs, dels, visited)
    && (0 <= k < |sorted| ==> sorted[k] in modified && content == modified[sorted[k]])
    && AllDone(srcs, out, once, modified, subs, dels)
    && OnceRespected(once, subs)
    && Covered(subs, visited)
    && SplicedFirstFrom(out, once, sorted, subs, k)
  }

  /** One round of the merge loop: pop `sorted[k - 1]` and finish it. */
  method Pop(srcs: Registry, out: Edges, once: map<string, bool>, sorted: seq<string>, k: int,
             ghost content0: string, modified0: map<string, string>, visited0: set<string>,
             ghost subs0: map<string, seq<string>>, ghost dels0: map<string, seq<string>>)
    returns (content: string, modified: map<string, string>, visited: set<string>,
             ghost subs: map<string, seq<string>>, ghost dels: map<string, seq<string>>)
    requires k > 0
    requires MergeState(srcs, out, once, sorted, k, content0, modified0, subs0, dels0, visited0)
    ensures MergeState(srcs, out, once, sorted, k - 1, content, modified, subs, dels, visited)
  {
    var name := sorted[k - 1];
    IncludedArePopped(out, sorted, k);
    ghost var sb, dl;
    content, visited, sb, dl := ProcessFragment(srcs[name], out[name], once, visited0, modified0);
    modified, subs, dels := modified0[name := content], subs0[name := sb], dels0[name := dl];
    PopPreserves(srcs, out, once, sorted, k, content0, modified0, subs0, dels0, visited0, content, visited, sb, dl);
  }

  /** Finishing the fragment popped from the stack keeps the merge invariant. */
  lemma PopPreserves(srcs: Registry, out: Edges, once: map<string, bool>, sorted: seq<string>, k: int,
                     content0: string, modified0: map<string, string>,
                     subs0: map<string, seq<string>>, dels0: map<string, seq<string>>, visited0: set<string>,
                     content: string, visited: set<string>, sb: seq<string>, dl: seq<string>)
    requires k > 0
    requires MergeState(srcs, out, once, sorted, k, content0, modified0, subs0, dels0, visited0)
    requires out[sorted[k - 1]] <= once.Keys && out[sorted[k - 1]] <= modified0.Keys
    requires visited == visited0 + out[sorted[k - 1]]
    requires Distinct(sb) && Elems(sb) == Fresh(out[sorted[k - 1]], once, visited0)
    requires Distinct(dl) && Elems(dl) == out[sorted[k - 1]]
    requires Elems(sb) <= modified0.Keys
    requires content == Deleted(Substituted(srcs[sorted[k - 1]], sb, modified0), dl)
    ensures MergeState(srcs, out, once, sorted, k - 1, content, modified0[sorted[k - 1] := content],
                       subs0[sorted[k - 1] := sb], dels0[sorted[k - 1] := dl], visited)
  {
    MergeFacts(srcs, out, once, sorted, k, content0, modified0, subs0, dels0, visited0);
    PopKeepsOnce(out, once, sorted, k, subs0, visited0, visited, sb);
    StepSplicedFirst(out, once, sorted, k, subs0, visited0, sb);
    PopKeepsHosts(srcs, out, once, sorted, k, content0, modified0, subs0, dels0, visited0, content, visited, sb, dl);
  }

  /** The facts about the fragments popped so far that the `#pragma once`
      bookkeeping needs. */
  lemma MergeFacts(srcs: Registry, out: Edges, once: map<string, bool>, sorted: seq<string>, k: int,
                   content: string, modified: map<string, string>,
                   subs: map<string, seq<string>>, dels: map<string, seq<string>>, visited: set<string>)
    requires MergeState(srcs, out, once, sorted, k, content, modified, subs, dels, visited)
    ensures Distinct(sorted) && 0 <= k <= |sorted|
    ensures subs.Keys == Elems(sorted[k..]) && visited == Reached(out, subs.Keys)
    ensures forall h :: h in subs ==> h in out && Elems(subs[h]) <= out[h]
    ensures OnceRespected(once, subs) && Covered(subs, visited)
    ensures SplicedFirstFrom(out, once, sorted, subs, k)
  {
    forall h | h in subs
      ensures h in out && Elems(subs[h]) <= out[h]
    {
      assert HostDone(srcs, out, once, modified, subs, dels, h);
    }
  }

  /** The bookkeeping and the finished hosts after one round. */
  lemma PopKeepsHosts(srcs: Registry, out: Edges, once: map<string, bool>, sorted: seq<string>, k: int,
                      content0: string, modified0: map<string, string>,
                      subs0: map<string, seq<string>>, dels0: map<string, seq<string>>, visited0: set<string>,
                      content: string, visited: set<string>, sb: seq<string>, dl: seq<string>)
    requires k > 0
    requires MergeState(srcs, out, once, sorted, k, content0, modified0, subs0, dels0, visited0)
    requires out[sorted[k - 1]] <= once.Keys && out[sorted[k - 1]] <= modified0.Keys
    requires visited == visited0 + out[sorted[k - 1]]
    requires Distinct(sb) && Elems(sb) == Fresh(out[sorted[k - 1]], once, visited0)
    requires Distinct(dl) && Elems(dl) == out[sorted[k - 1]]
    requires Elems(sb) <= modified0.Keys
    requires content == Deleted(Substituted(srcs[sorted[k - 1]], sb, modified0), dl)
    requires OnceRespected(once, subs0[sorted[k - 1] := sb]) && Covered(subs0[sorted[k - 1] := sb], visited)
    requires SplicedFirstFrom(out, once, sorted, subs0[sorted[k - 1] := sb], k - 1)
    ensures MergeState(srcs, out, once, sorted, k - 1, content, modified0[sorted[k - 1] := content],
                       subs0[sorted[k - 1] := sb], dels0[sorted[k - 1] := dl], visited)
  {
    var name := sorted[k - 1];
    var modified, subs, dels := modified0[name := content], subs0[name := sb], dels0[name := dl];
    PoppedGrow(sorted, k);
    PoppedStep(srcs, out, once, sorted, k, modified0, subs0, dels0, visited0, content, sb, dl, visited);
    StepHostDone(srcs, out, once, modified0, subs0, dels0, name, content, sb, dl, modified, subs, dels);
  }

  /** `#pragma once` and coverage after one round. */
  lemma PopKeepsOnce(out: Edges, once: map<string, bool>, sorted: seq<string>, k: int,
                     subs0: map<string, seq<string>>, visited0: set<string>, visited: set<string>, sb: seq<string>)
    requires Distinct(sorted) && 0 < k <= |sorted| && sorted[k - 1] in out
    requires subs0.Keys == Elems(sorted[k..]) && visited0 == Reached(out, subs0.Keys)
    requires forall h :: h in subs0 ==> h in out && Elems(subs0[h]) <= out[h]
    requires OnceRespected(once, subs0) && Covered(subs0, visited0)
    requires out[sorted[k - 1]] <= once.Keys
    requires visited == visited0 + out[sorted[k - 1]]
    requires Elems(sb) == Fresh(out[sorted[k - 1]], once, visited0)
    ensures OnceRespected(once, subs0[sorted[k - 1] := sb])
    ensures Covered(subs0[sorted[k - 1] := sb], visited)
  {
    var name := sorted[k - 1];
    PoppedGrow(sorted, k);
    StepOnce(out, once, subs0.Keys, subs0, visited0, name, sb);
    StepCovered(out, once, subs0.Keys, subs0, visited0, name, sb);
  }


  /** The names reached from one more fragment. */
  lemma ReachedAdd(out: Edges, popped: set<string>, name: string)
    requires name in out
    ensures Reached(out, popped + {name}) == Reached(out, popped) + out[name]
  {
  }

  /** Popping `sorted[k - 1]` keeps the bookkeeping of the merge loop. */
  lemma PoppedStep(srcs: Registry, out: Edges, once: map<string, bool>, sorted: seq<string>, k: int,
                   modified0: map<string, string>, subs0: map<string, seq<string>>,
                   dels0: map<string, seq<string>>, visited0: set<string>,
                   content: string, sb: seq<string>, dl: seq<string>, visited: set<string>)
    requires k > 0 && Popped(srcs, out, once, sorted, k, modified0, subs0, dels0, visited0)
    requires visited == visited0 + out[sorted[k - 1]]
    ensures Popped(srcs, out, once, sorted, k - 1, modified0[sorted[k - 1] := content],
                   subs0[sorted[k - 1] := sb], dels0[sorted[k - 1] := dl], visited)
  {
    PoppedGrow(sorted, k);
    ReachedAdd(out, modified0.Keys, sorted[k - 1]);
  }

  /** Popping one more fragment adds it to the popped ones. */
  lemma PoppedGrow(sorted: seq<string>, k: nat)
    requires Distinct(sorted) && 0 < k <= |sorted|
    ensures Elems(sorted[k - 1..]) == Elems(sorted[k..]) + {sorted[k - 1]}
    ensures sorted[k - 1] !in Elems(sorted[k..])
  {
    assert sorted[k - 1..] == [sorted[k - 1]] + sorted[k..];
  }

  /** Finishing `name` keeps every fragment finished so far finished, and
      finishes `name`. */
  lemma StepHostDone(srcs: Registry, out: Edges, once: map<string, bool>, modified: map<string, string>,
                     subs: map<string, seq<string>>, dels: map<string, seq<string>>,
                     name: string, c: string, sb: seq<string>, dl: seq<string>,
                     m2: map<string, string>, s2: map<string, seq<string>>, d2: map<string, seq<string>>)
    requires m2 == modified[name := c] && s2 == subs[name := sb] && d2 == dels[name := dl]
    requires AllDone(srcs, out, once, modified, subs, dels)
    requires name in srcs && name in out && name !in modified && out[name] <= modified.Keys
    requires Distinct(sb) && Elems(sb) <= out[name] && Distinct(dl) && Elems(dl) == out[name]
    requires forall g :: g in out[name] && g in once && !once[g] ==> g in Elems(sb)
    requires c == Deleted(Substituted(srcs[name], sb, modified), dl)
    ensures AllDone(srcs, out, once, m2, s2, d2)
  {
    forall h | h in m2
      ensures HostDone(srcs, out, once, m2, s2, d2, h)
    {
      if h == name {
        SubstitutedFrame(srcs[name], sb, modified, name, c);
      } else {
        assert HostDone(srcs, out, once, modified, subs, dels, h);
        SubstitutedFrame(srcs[h], subs[h], modified, name, c);
      }
    }
  }

  /** A `#pragma once` name is fresh only while no finished fragment includes
      it, so finishing `name` substitutes it at most once. */
  lemma StepOnce(out: Edges, once: map<string, bool>, popped: set<string>, subs: map<string, seq<string>>,
                 visited: set<string>, name: string, sb: seq<string>)
    requires subs.Keys == popped && visited == Reached(out, popped) && name !in popped
    requires forall h :: h in subs ==> h in out && Elems(subs[h]) <= out[h]
    requires OnceRespected(once, subs)
    requires name in out && out[name] <= once.Keys && Elems(sb) == Fresh(out[name], once, visited)
    ensures OnceRespected(once, subs[name := sb])
  {
    var s := subs[name := sb];
    forall h1, h2, g | h1 in s && h2 in s && g in once && once[g] && g in Elems(s[h1]) && g in Elems(s[h2])
      ensures h1 == h2
    {
    }
  }

  /** The fragment popped from the stack splices exactly its fresh names, and
      the fragments popped before it keep theirs. */
  lemma StepSplicedFirst(out: Edges, once: map<string, bool>, sorted: seq<string>, k: int,
                         subs0: map<string, seq<string>>, visited0: set<string>, sb: seq<string>)
    requires Distinct(sorted) && 0 < k <= |sorted| && sorted[k - 1] in out && out[sorted[k - 1]] <= once.Keys
    requires SplicedFirstFrom(out, once, sorted, subs0, k)
    requires visited0 == Reached(out, Elems(sorted[k..]))
    requires Elems(sb) == Fresh(out[sorted[k - 1]], once, visited0)
    ensures SplicedFirstFrom(out, once, sorted, subs0[sorted[k - 1] := sb], k - 1)
  {
    var s := subs0[sorted[k - 1] := sb];
    forall j | k - 1 <= j < |sorted|
      ensures SplicedFirst(out, once, sorted, s, j)
    {
      if j >= k {
        assert SplicedFirst(out, once, sorted, subs0, j);
        assert sorted[j] != sorted[k - 1];
      }
    }
  }

  /** After finishing `name`, every name reached so far is still substituted
      somewhere. */
  lemma StepCovered(out: Edges, once: map<string, bool>, popped: set<string>, subs: map<string, seq<string>>,
                    visited: set<string>, name: string, sb: seq<string>)
    requires subs.Keys == popped && visited == Reached(out, popped) && name !in popped && name in out
    requires Covered(subs, visited)
    requires out[name] <= once.Keys && Elems(sb) == Fresh(out[name], once, visited)
    ensures Covered(subs[name := sb], visited + out[name])
  {
    var s := subs[name := sb];
    forall g | g in visited + out[name]
      ensures exists h :: h in s && g in Elems(s[h])
    {
      if g in visited {
        var h :| h in subs && g in Elems(subs[h]);
        assert h in s && g in Elems(s[h]);
      } else {
        assert g in Elems(s[name]);
      }
    }
  }
}
