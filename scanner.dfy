/** The directive scanner: whether a fragment is marked `#pragma once`, the
    name inside a directive, and the set of names a fragment includes. */
module Scanner {
  import opened Basics
  import opened Patterns

  /** `has_pragma_once` of glsl_include.h: a search under the multiline flag,
      so the marker may stand at the start of any line. */
  function HasPragmaOnce(s: string): (r: bool)
    ensures r <==> HasLineMatch(PragmaOnce, s)
  {
    var m := Search(PragmaOnce, s, 0, true);
    SearchLeftmost(PragmaOnce, s, 0, true);
    assert m.Some? ==> LineStart(s, m.value.start);
    m.Some?
  }

  /** `has_pragma_once` of glsl_builder.h: the same pattern without the
      multiline flag, so `^` holds only at position 0. */
  function HasPragmaOnceAtStart(s: string): bool
  {
    PragmaAt(s, 0).Some?
  }

  /** `s` opens with optional white space, `#pragma` at `h`, white space and `once` at `o`. */
  ghost predicate OpensWithPragma(s: string, h: nat, o: nat)
  {
    h + 7 < o && o + 4 <= |s| && AllSpace(s, 0, h)
    && s[h..h + 7] == "#pragma" && AllSpace(s, h + 7, o) && s[o..o + 4] == "once"
  }

  /** The builder's marker test accepts exactly the texts that open with
      optional white space, `#pragma`, white space and `once`. */
  lemma PragmaAtStartShape(s: string)
    ensures HasPragmaOnceAtStart(s) <==> exists h: nat, o: nat :: OpensWithPragma(s, h, o)
  {
    if HasPragmaOnceAtStart(s) {
      var r := PragmaAt(s, 0).value;
      assert OpensWithPragma(s, r.hash, r.open);
    } else {
      forall h: nat, o: nat | OpensWithPragma(s, h, o)
        ensures false
      {
        assert s[h] == s[h..h + 7][0];
        SpaceEndAt(s, 0, h);
        assert s[o] == s[o..o + 4][0];
        SpaceEndAt(s, h + 7, o);
      }
    }
  }

  /** Every fragment the builder marks is marked by glsl_include.h too ... */
  lemma BuilderMarksFewer(s: string)
    ensures HasPragmaOnceAtStart(s) ==> HasPragmaOnce(s)
  {
    if HasPragmaOnceAtStart(s) {
      assert LineStart(s, 0) && MatchAt(PragmaOnce, s, 0).Some?;
    }
  }

  /** ... but not conversely: a marker below a comment line counts only there. */
  lemma BuilderMissesLaterMarker()
    ensures HasPragmaOnce("//\n#pragma once\n") && !HasPragmaOnceAtStart("//\n#pragma once\n")
  {
    MarkerOnSecondLine();
    NoMarkerAtStart();
  }

  lemma NoMarkerAtStart()
    ensures !HasPragmaOnceAtStart("//\n#pragma once\n")
  {
    var s := "//\n#pragma once\n";
    SpaceEndAt(s, 0, 0);
    assert s[0] == '/';
  }

  lemma MarkerOnSecondLine()
    ensures HasLineMatch(PragmaOnce, "//\n#pragma once\n")
  {
    var s := "//\n#pragma once\n";
    assert LineStart(s, 3);
    SpaceEndAt(s, 3, 3);
    SpaceEndAt(s, 10, 11);
    assert s[3..10] == "#pragma" && s[11..15] == "once";
    assert MatchAt(PragmaOnce, s, 3).Some?;
  }

  /** The final clean-up of both implementations: every `#pragma once` match
      deleted (glsl_builder.h's `remove_pragma_once` uses the multiline flag). */
  function RemovePragmas(s: string): string
  {
    ReplaceAll(PragmaOnce, s, "")
  }

  /** The clean-up changes a text exactly when it is marked. */
  lemma RemovePragmasChanges(s: string)
    ensures RemovePragmas(s) == s <==> !HasPragmaOnce(s)
    ensures HasPragmaOnce(s) ==> |RemovePragmas(s)| < |s|
  {
    DeleteAllIdentity(PragmaOnce, s);
  }

  /** `t` holds `<n>` from position `i`. */
  predicate Bracketed(t: string, i: nat, n: string)
  {
    i + |n| + 2 <= |t| && t[i..i + |n| + 2] == ['<'] + n + ['>']
  }

  /** `<[a-zA-z0-9_.]+>` matched at `i`: the text between the brackets. */
  function AngleNameAt(t: string, i: nat): (r: Option<string>)
    requires i <= |t|
    ensures r.Some? ==> IsName(r.value) && Bracketed(t, i, r.value)
  {
    if i < |t| && t[i] == '<' then
      var m := NameEnd(t, i + 1);
      if m > i + 1 && m < |t| && t[m] == '>' then
        assert t[i..m + 1] == ['<'] + t[i + 1..m] + ['>'];
        Some(t[i + 1..m])
      else None
    else None
  }

  function GetNameFrom(t: string, i: nat): Option<string>
    requires i <= |t|
    decreases |t| - i
  {
    if i == |t| then None
    else if AngleNameAt(t, i).Some? then AngleNameAt(t, i)
    else GetNameFrom(t, i + 1)
  }

  /** `get_name` (and the builder's `extract_name`): the first `<name>` of the
      matched text with its brackets removed. The source applies it only to a
      directive match; on a text without one it would throw. */
  function GetName(t: string): Option<string>
  {
    GetNameFrom(t, 0)
  }

  /** No position of `t[i..k]` holds a bracketed name. */
  predicate NoNameBetween(t: string, i: nat, k: nat)
    requires k <= |t|
  {
    forall j :: i <= j < k ==> AngleNameAt(t, j).None?
  }

  /** The search from `i` returns the bracketed name at the first position
      at or after `i` that holds one, and nothing exactly when there is none. */
  lemma {:induction false} GetNameFromMeaning(t: string, i: nat)
    requires i <= |t|
    ensures GetNameFrom(t, i).Some? ==>
              exists k :: i <= k <= |t| && AngleNameAt(t, k) == GetNameFrom(t, i) && NoNameBetween(t, i, k)
    ensures GetNameFrom(t, i).None? <==> NoNameBetween(t, i, |t|)
    decreases |t| - i
  {
    if i == |t| {
    } else if AngleNameAt(t, i).Some? {
      assert NoNameBetween(t, i, i);
    } else {
      GetNameFromMeaning(t, i + 1);
      if GetNameFrom(t, i).Some? {
        var k :| i + 1 <= k <= |t| && AngleNameAt(t, k) == GetNameFrom(t, i + 1) && NoNameBetween(t, i + 1, k);
        assert NoNameBetween(t, i, k);
      }
    }
  }

  /** `get_name` returns the name of name characters between the leftmost
      `<` and `>` that enclose one (`regex_search` returns the leftmost
      match), and nothing exactly when the text holds no `<name>`. */
  lemma GetNameMeaning(t: string)
    ensures GetName(t).Some? ==> IsName(GetName(t).value)
    ensures GetName(t).Some? ==>
              exists k :: 0 <= k <= |t| && Bracketed(t, k, GetName(t).value) && NoNameBetween(t, 0, k)
    ensures GetName(t).None? <==> NoNameBetween(t, 0, |t|)
  {
    GetNameFromMeaning(t, 0);
    if GetName(t).Some? {
      var k :| 0 <= k <= |t| && AngleNameAt(t, k) == GetName(t) && NoNameBetween(t, 0, k);
    }
  }

  /** The search for `<` skips a prefix that holds none. */
  lemma {:induction false} GetNameSkips(t: string, i: nat, j: nat)
    requires i <= j <= |t|
    requires forall k :: i <= k < j ==> t[k] != '<'
    ensures GetNameFrom(t, i) == GetNameFrom(t, j)
    decreases j - i
  {
    if i < j {
      GetNameSkips(t, i + 1, j);
    }
  }

  /** Applied to the text of a directive match, `get_name` yields the name the
      directive pattern matched. */
  lemma NameOfDirective(s: string, h: Hit)
    requires IncludeShape(s, h) && IsName(h.name)
    ensures GetName(s[h.start..h.end]) == Some(h.name)
  {
    var t := s[h.start..h.end];
    var lt := h.open - 1 - h.start;
    NoAngleBeforeName(s, h);
    forall k | 0 <= k < lt
      ensures t[k] != '<'
    {
      assert t[k] == s[h.start + k];
    }
    GetNameSkips(t, 0, lt);
    NameInText(s, h);
  }

  lemma NoAngleBeforeName(s: string, h: Hit)
    requires IncludeShape(s, h)
    ensures forall k :: h.start <= k < h.open - 1 ==> s[k] != '<'
  {
    forall k | h.start <= k < h.open - 1
      ensures s[k] != '<'
    {
      if h.hash <= k < h.hash + 8 {
        assert s[k] == s[h.hash..h.hash + 8][k - h.hash];
      }
    }
  }

  lemma NameInText(s: string, h: Hit)
    requires IncludeShape(s, h) && IsName(h.name)
    ensures AngleNameAt(s[h.start..h.end], h.open - 1 - h.start) == Some(h.name)
  {
    var t := s[h.start..h.end];
    var lt := h.open - 1 - h.start;
    var m := h.close - 1 - h.start;
    forall k | lt + 1 <= k < m
      ensures IsNameChar(t[k])
    {
      assert t[k] == s[h.open..h.close - 1][k - lt - 1];
    }
    assert t[m] == '>';
    NameEndAt(t, lt + 1, m);
    assert t[lt + 1..m] == s[h.open..h.close - 1];
  }

  /** Only white space lies between the start of the line holding `p` and `p`. */
  predicate OwnLine(s: string, p: nat)
    requires p <= |s|
    decreases p
  {
    p == 0 || IsLineTerminator(s[p - 1]) || (IsSpace(s[p - 1]) && OwnLine(s, p - 1))
  }

  lemma {:induction false} OwnLineExtends(s: string, p: nat, q: nat)
    requires p <= q <= |s| && OwnLine(s, p) && AllSpace(s, p, q)
    ensures OwnLine(s, q)
    decreases q - p
  {
    if p < q {
      OwnLineExtends(s, p, q - 1);
    }
  }

  /** The line holding an own-line position starts at a `^` position. */
  lemma {:induction false} OwnLineBegin(s: string, p: nat) returns (b: nat)
    requires p <= |s| && OwnLine(s, p)
    ensures b <= p && LineStart(s, b) && AllSpace(s, b, p)
    decreases p
  {
    if p == 0 || IsLineTerminator(s[p - 1]) {
      b := p;
    } else {
      b := OwnLineBegin(s, p - 1);
    }
  }

  /** `get_includes` AS WRITTEN: after each match the search restarts where
      the match ended, and `regex_search` over that sub-range takes its first
      position for a line start. */
  function IncludesAsWrittenFrom(s: string, from: nat): set<string>
    requires from <= |s|
    decreases |s| - from
  {
    if from == |s| then {}
    else
      match Search(Directive, s, from, true)
      case None => {}
      case Some(h) => {h.name} + IncludesAsWrittenFrom(s, h.end)
  }

  /** The restart anchors a directive that follows another on the same line,
      and the substitution pattern, which anchors only at real line starts,
      never finds that second directive: "b" becomes a dependency whose
      directive stays in the output. */
  lemma AsWrittenReportsSiteless()
    ensures "b" in IncludesAsWrittenFrom("#include <a> #include <b>\n", 0)
    ensures !HasLineMatch(DirectiveHead("b"), "#include <a> #include <b>\n")
  {
    SecondReported();
    NoSiteForSecond();
  }

  lemma SecondReported()
    ensures "b" in IncludesAsWrittenFrom("#include <a> #include <b>\n", 0)
  {
    var s := "#include <a> #include <b>\n";
    var h0 := FirstOfTwo();
    var h1 := SecondOfTwo();
    SearchFindsAt(Directive, s, 0, true);
    SearchFindsAt(Directive, s, 13, true);
    assert IncludesAsWrittenFrom(s, 13) == {"b"} + IncludesAsWrittenFrom(s, 26);
  }

  lemma NoSiteForSecond()
    ensures !HasLineMatch(DirectiveHead("b"), "#include <a> #include <b>\n")
  {
    var s := "#include <a> #include <b>\n";
    OneLine();
    NoHeadAtStart();
    forall i | 0 <= i <= |s| && LineStart(s, i)
      ensures MatchAt(DirectiveHead("b"), s, i).None?
    {
      assert i == 0 || i == |s|;
    }
  }

  lemma OneLine()
    ensures forall i :: 0 < i < 26 ==> !LineStart("#include <a> #include <b>\n", i)
  {
    var s := "#include <a> #include <b>\n";
    var t := "#include <a> #include <b>";
    assert '\n' !in t && '\r' !in t;
    forall i | 0 < i < 26
      ensures !LineStart(s, i)
    {
      assert s[i - 1] == t[i - 1] && t[i - 1] in t;
    }
  }

  lemma NoHeadAtStart()
    ensures MatchAt(DirectiveHead("b"), "#include <a> #include <b>\n", 0).None?
  {
    var s := "#include <a> #include <b>\n";
    SpaceEndAt(s, 0, 0);
    SpaceEndAt(s, 8, 9);
    assert s[0..8] == "#include";
    assert s[10..11][0] == 'a';
  }

  lemma FirstOfTwo() returns (h: Hit)
    ensures h == Hit(0, 0, 10, "a", 12, 13)
    ensures MatchAt(Directive, "#include <a> #include <b>\n", 0) == Some(h)
  {
    var s := "#include <a> #include <b>\n";
    var g := Hit(0, 0, 10, "a", 12, 12);
    assert s[0..8] == "#include" && s[10..11] == "a";
    assert IncludeShape(s, g);
    DirectiveMatchComplete(s, g);
    GapAfterFirst();
    h := g.(end := 13);
  }

  lemma GapAfterFirst()
    ensures SpaceEnd("#include <a> #include <b>\n", 12) == 13
  {
    var s := "#include <a> #include <b>\n";
    assert s[12] == ' ' && s[13] == '#';
    SpaceEndAt(s, 12, 13);
  }

  lemma SecondOfTwo() returns (h: Hit)
    ensures h == Hit(13, 13, 23, "b", 25, 26)
    ensures MatchAt(Directive, "#include <a> #include <b>\n", 13) == Some(h)
  {
    var s := "#include <a> #include <b>\n";
    var g := Hit(13, 13, 23, "b", 25, 25);
    assert s[13..21] == "#include" && s[23..24] == "b";
    assert IncludeShape(s, g);
    DirectiveMatchComplete(s, g);
    assert SpaceEnd(s, 26) == 26;
    h := g.(end := 26);
  }

  /** `get_includes` as intended (corrected): the restart position counts as a
      line start only when nothing but white space precedes it on its line. */
  function IncludesFrom(s: string, from: nat): set<string>
    requires from <= |s|
    decreases |s| - from
  {
    if from == |s| then {}
    else
      match Search(Directive, s, from, OwnLine(s, from))
      case None => {}
      case Some(h) => {h.name} + IncludesFrom(s, h.end)
  }

  /** The names a fragment includes. */
  function Includes(s: string): set<string>
  {
    IncludesFrom(s, 0)
  }

  /** Every name the corrected scanner reports is a well-formed name whose
      directive occupies its own line, so the substitution pattern and the
      deletion pattern of the merge both find a site for it. */
  lemma {:induction false} IncludedHasSite(s: string, from: nat, n: string)
    requires from <= |s| && n in IncludesFrom(s, from)
    ensures IsName(n)
    ensures HasLineMatch(DirectiveHead(n), s) && HasLineMatch(DirectiveLine(n), s)
    decreases |s| - from
  {
    var h := Search(Directive, s, from, OwnLine(s, from)).value;
    if n == h.name {
      assert OwnLine(s, h.start);
      SiteOfOwnLineHit(s, h);
    } else {
      IncludedHasSite(s, h.end, n);
    }
  }

  /** A directive match that starts on its own line has a site at a line start. */
  lemma SiteOfOwnLineHit(s: string, h: Hit)
    requires IncludeShape(s, h) && OwnLine(s, h.start)
    ensures HasLineMatch(DirectiveHead(h.name), s) && HasLineMatch(DirectiveLine(h.name), s)
  {
    var g := OwnLineShape(s, h);
    HeadMatchComplete(s, g);
    LineMatchComplete(s, g);
  }

  /** The directive of such a match, read from the start of its line. */
  lemma OwnLineShape(s: string, h: Hit) returns (g: Hit)
    requires IncludeShape(s, h) && OwnLine(s, h.start)
    ensures IncludeShape(s, g) && g.end == g.close && g.name == h.name && g.start <= |s| && LineStart(s, g.start)
  {
    OwnLineExtends(s, h.start, h.hash);
    var b := OwnLineBegin(s, h.hash);
    g := Hit(b, h.hash, h.open, h.name, h.close, h.close);
  }

  /** Some line of `s` starts a match of the directive pattern naming `n`:
      nothing but white space (possibly blank lines) stands before
      `#include <n>` on its line. */
  ghost predicate DirectiveLineOf(s: string, n: string)
  {
    exists i :: 0 <= i <= |s| && LineStart(s, i) && MatchAt(Directive, s, i).Some? && MatchAt(Directive, s, i).value.name == n
  }

  /** The corrected scanner reports exactly the names of the directive
      lines: a name repeated on several lines is reported once, and a
      directive after other text on its line (a comment marker, another
      directive) is never reported on its own account. */
  lemma IncludesExactly(s: string, n: string)
    ensures n in Includes(s) <==> DirectiveLineOf(s, n)
  {
    if n in Includes(s) {
      IncludedIsDirectiveLine(s, 0, n);
    }
    if DirectiveLineOf(s, n) {
      var i :| 0 <= i <= |s| && LineStart(s, i) && MatchAt(Directive, s, i).Some? && MatchAt(Directive, s, i).value.name == n;
      DirectiveLineIncluded(s, 0, i);
    }
  }

  lemma {:induction false} IncludedIsDirectiveLine(s: string, from: nat, n: string)
    requires from <= |s| && n in IncludesFrom(s, from)
    ensures DirectiveLineOf(s, n)
    decreases |s| - from
  {
    var h := Search(Directive, s, from, OwnLine(s, from)).value;
    if n == h.name {
      assert OwnLine(s, h.start);
      var g := OwnLineShape(s, h);
      DirectiveMatchComplete(s, g);
      assert LineStart(s, g.start) && MatchAt(Directive, s, g.start).value.name == n;
    } else {
      IncludedIsDirectiveLine(s, h.end, n);
    }
  }

  /** A directive line is reported by every scan that starts before it, or
      inside the white space that leads up to its `#include`. */
  lemma {:induction false} DirectiveLineIncluded(s: string, from: nat, i: nat)
    requires from <= |s| && i <= |s| && LineStart(s, i) && MatchAt(Directive, s, i).Some?
    requires from <= i || (i < from <= MatchAt(Directive, s, i).value.hash && AllSpace(s, i, from))
    ensures MatchAt(Directive, s, i).value.name in IncludesFrom(s, from)
    decreases |s| - from
  {
    var h := MatchAt(Directive, s, i).value;
    if i < from {
      IncludedFromLead(s, from, h);
    } else {
      var g := FirstFrom(s, from, i);
      if g.start < i {
        NextAnchor(s, g, h);
        if h.hash == g.hash {
          SameHashSameName(s, g, h);
        } else {
          DirectiveLineIncluded(s, g.end, i);
        }
      }
    }
  }

  /** A scan restarting in the white space that leads up to a directive
      line's `#include` reports it at once. */
  lemma IncludedFromLead(s: string, from: nat, h: Hit)
    requires from <= |s| && IncludeShape(s, h) && IsName(h.name) && LineStart(s, h.start)
    requires h.start < from <= h.hash && AllSpace(s, h.start, from)
    ensures h.name in IncludesFrom(s, from)
  {
    OwnLineExtends(s, h.start, from);
    var g := Hit(from, h.hash, h.open, h.name, h.close, h.close);
    DirectiveMatchComplete(s, g);
    SearchFindsAt(Directive, s, from, true);
  }

  /** A scan from `from` with a directive line at `i` ahead finds a match at
      or before `i`, and reports it. */
  lemma FirstFrom(s: string, from: nat, i: nat) returns (g: Hit)
    requires from <= i <= |s| && LineStart(s, i) && MatchAt(Directive, s, i).Some?
    ensures g.start <= i && MatchAt(Directive, s, g.start) == Some(g)
    ensures IncludeShape(s, g) && IsName(g.name) && g.end == SpaceEnd(s, g.close)
    ensures g.start == i ==> g == MatchAt(Directive, s, i).value
    ensures from < g.end <= |s|
    ensures IncludesFrom(s, from) == {g.name} + IncludesFrom(s, g.end)
  {
    var bol := OwnLine(s, from);
    SearchLeftmost(Directive, s, from, bol);
    var r := Search(Directive, s, from, bol);
    assert Anchored(s, from, bol, i);
    g := r.value;
  }

  /** Two directive matches that share their `#include` name the same fragment. */
  lemma SameHashSameName(s: string, g: Hit, h: Hit)
    requires IncludeShape(s, g) && IsName(g.name) && IncludeShape(s, h) && IsName(h.name) && g.hash == h.hash
    ensures g.name == h.name
  {
    FirstNonSpace(s, g.hash + 8, g.open - 1, h.open - 1);
    NameRun(s, g);
    NameRun(s, h);
  }

  /** Where a directive match `g` that begins before the line start of another
      match `h` stops: before that line, or inside the white space leading up
      to `h`'s `#include`, unless both share their `#include`. */
  lemma NextAnchor(s: string, g: Hit, h: Hit)
    requires IncludeShape(s, g) && IsName(g.name) && g.end == SpaceEnd(s, g.close)
    requires IncludeShape(s, h) && LineStart(s, h.start) && g.start < h.start
    ensures h.hash == g.hash || g.end <= h.start || (h.start < g.end <= h.hash && AllSpace(s, h.start, g.end))
  {
    var i := h.start;
    HashAt(s, h);
    HashAt(s, g);
    if i <= g.hash {
      FirstNonSpace(s, i, h.hash, g.hash);
    } else if i < g.close {
      LineStartInGap(s, g, i);
      assert false;
    } else if i < g.end {
      FirstNonSpace(s, i, h.hash, g.end);
    }
  }

  /** An `#include` match has '#' where its word begins. */
  lemma HashAt(s: string, h: Hit)
    requires IncludeShape(s, h)
    ensures h.hash < |s| && s[h.hash] == '#'
  {
    assert s[h.hash] == s[h.hash..h.hash + 8][0];
  }

  /** Two characters that end white space from the same position are one. */
  lemma FirstNonSpace(s: string, i: nat, a: nat, b: nat)
    requires i <= a <= |s| && i <= b <= |s|
    requires AllSpace(s, i, a) && AllSpace(s, i, b)
    requires a < |s| ==> !IsSpace(s[a])
    requires b < |s| ==> !IsSpace(s[b])
    ensures a == b
  {
  }

  /** Inside `#include[\s]+<name>` a line can start only in the white space
      before '<'. */
  lemma LineStartInGap(s: string, g: Hit, i: nat)
    requires IncludeShape(s, g) && IsName(g.name) && g.hash < i < g.close && LineStart(s, i)
    ensures g.hash + 8 < i <= g.open - 1
  {
  }

  /** The loop of `get_includes` (and of the builder's `find_includes`),
      with the corrected restart anchor. */
  method GetIncludes(s: string) returns (out: set<string>)
    ensures out == Includes(s)
    ensures forall n :: n in out ==> IsName(n) && HasLineMatch(DirectiveHead(n), s)
  {
    out := {};
    var iter := 0;
    while iter != |s|
      invariant iter <= |s|
      invariant out + IncludesFrom(s, iter) == Includes(s)
      decreases |s| - iter
    {
      var m := Search(Directive, s, iter, OwnLine(s, iter));
      if m.Some? {
        var h := m.value;
        NameOfDirective(s, h);
        var name := GetName(s[h.start..h.end]);
        out := out + {name.value};
        iter := h.end;
      } else {
        iter := |s|;
      }
    }
    forall n | n in out
      ensures IsName(n) && HasLineMatch(DirectiveHead(n), s)
    {
      IncludedHasSite(s, 0, n);
    }
  }
}
