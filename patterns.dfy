/** The fixed regular expressions of both headers, written out as matchers over
    strings, with the two ways `std::regex` runs them: one search
    (`regex_search`), the first match replaced (`regex_replace` with
    `format_first_only`) and every non-overlapping match replaced
    (`regex_replace`).

    The patterns are ECMAScript patterns with the `multiline` flag, so `^`
    holds at the start of the input and just after a line terminator ('\n' or
    '\r'). Every quantifier in them is followed by a character its class
    excludes (`[\s]*` by '#', `[\s]+` by '<' or 'o', the name class by '>'), so
    backtracking never changes a match: each one is the greedy run, and a
    pattern matches at a position in at most one way. */
module Patterns {
  import opened Basics

  /** `\s`: the white-space characters of the C locale. `[\s\r\n]` is the same class. */
  predicate IsSpace(c: char)
  {
    c == ' ' || c == '\t' || c == '\n' || c == '\U{B}' || c == '\U{C}' || c == '\r'
  }

  predicate IsLineTerminator(c: char)
  {
    c == '\n' || c == '\r'
  }

  /** `[a-zA-z0-9_.]` as written. The range `A-z` runs from 'A' (0x41) to 'z'
      (0x7A), so it also admits '[', '\\', ']', '^' and '`'. */
  predicate IsNameChar(c: char)
  {
    ('a' <= c <= 'z') || ('A' <= c <= 'z') || ('0' <= c <= '9') || c == '_' || c == '.'
  }

  /** A string `[a-zA-z0-9_.]+` matches. */
  predicate IsName(n: string)
  {
    |n| > 0 && forall k :: 0 <= k < |n| ==> IsNameChar(n[k])
  }

  /** `^` under the multiline flag. */
  predicate LineStart(s: string, i: nat)
    requires i <= |s|
  {
    i == 0 || IsLineTerminator(s[i - 1])
  }

  /** Every character of `s[from..to]` is white space. */
  predicate AllSpace(s: string, from: nat, to: nat)
    requires from <= to <= |s|
  {
    forall k :: from <= k < to ==> IsSpace(s[k])
  }

  /** Where the greedy `[\s]*` that starts at `i` stops. */
  function SpaceEnd(s: string, i: nat): (r: nat)
    requires i <= |s|
    ensures i <= r <= |s| && AllSpace(s, i, r)
    ensures r == |s| || !IsSpace(s[r])
    decreases |s| - i
  {
    if i < |s| && IsSpace(s[i]) then SpaceEnd(s, i + 1) else i
  }

  /** Where the greedy `[a-zA-z0-9_.]*` that starts at `i` stops. */
  function NameEnd(s: string, i: nat): (r: nat)
    requires i <= |s|
    ensures i <= r <= |s|
    ensures forall k :: i <= k < r ==> IsNameChar(s[k])
    ensures r == |s| || !IsNameChar(s[r])
    decreases |s| - i
  {
    if i < |s| && IsNameChar(s[i]) then NameEnd(s, i + 1) else i
  }

  /** A greedy run ends at the first character outside its class. */
  lemma SpaceEndAt(s: string, i: nat, j: nat)
    requires i <= j < |s| && AllSpace(s, i, j) && !IsSpace(s[j])
    ensures SpaceEnd(s, i) == j
    decreases j - i
  {
    if i < j {
      SpaceEndAt(s, i + 1, j);
    }
  }

  lemma NameEndAt(s: string, i: nat, j: nat)
    requires i <= j < |s| && !IsNameChar(s[j])
    requires forall k :: i <= k < j ==> IsNameChar(s[k])
    ensures NameEnd(s, i) == j
    decreases j - i
  {
    if i < j {
      NameEndAt(s, i + 1, j);
    }
  }

  /** The four fixed patterns. `DirectiveHead` and `DirectiveLine` are built at
      run time around a name taken from a directive; the name is compared
      literally here. */
  datatype Pattern =
    | Directive                       // ^[\s]*#include[\s]+<[a-zA-z0-9_.]+>[\s\r\n]*
    | DirectiveHead(target: string)   // ^[\s]*#include[\s]+<target>
    | DirectiveLine(target: string)   // ^[\s]*#include[\s]+<target>[\s\r\n]*
    | PragmaOnce                      // ^[\s]*#pragma[\s]+once[\s\r\n]*

  /** A match: `start` where it begins, `hash` where its '#' is, `open` where
      the name (for `#pragma`, the word `once`) begins, `name` the text between
      '<' and '>' (for `#pragma`, "once"), `close` just after '>' (after `once`)
      and `end` where the whole match stops. */
  datatype Hit = Hit(start: nat, hash: nat, open: nat, name: string, close: nat, end: nat)

  /** What a match of an `#include` pattern consists of: white space, the
      word `#include`, at least one white-space character, then `<name>`. */
  ghost predicate IncludeShape(s: string, h: Hit)
  {
    && h.start <= h.hash && h.hash + 8 < h.open - 1 && h.close == h.open + |h.name| + 1
    && h.close <= h.end <= |s|
    && AllSpace(s, h.start, h.hash)
    && s[h.hash..h.hash + 8] == "#include"
    && AllSpace(s, h.hash + 8, h.open - 1)
    && s[h.open - 1] == '<' && s[h.open..h.close - 1] == h.name && s[h.close - 1] == '>'
  }

  /** The match of an `#include` pattern that begins at `i`, if any. */
  function IncludeAt(p: Pattern, s: string, i: nat): (r: Option<Hit>)
    requires p != PragmaOnce && i <= |s|
    ensures r.Some? ==> r.value.start == i && IncludeShape(s, r.value)
    ensures r.Some? && p == Directive ==> IsName(r.value.name) && r.value.end == SpaceEnd(s, r.value.close)
    ensures r.Some? && p.DirectiveHead? ==> r.value.name == p.target && r.value.end == r.value.close
    ensures r.Some? && p.DirectiveLine? ==> r.value.name == p.target && r.value.end == SpaceEnd(s, r.value.close)
  {
    var j := SpaceEnd(s, i);
    if j + 8 <= |s| && s[j..j + 8] == "#include" then
      var lt := SpaceEnd(s, j + 8);
      if lt > j + 8 && lt < |s| && s[lt] == '<' then
        match p
        case Directive => AnyNameAt(s, i, j, lt)
        case DirectiveHead(n) => NameAt(s, i, j, lt, n, false)
        case DirectiveLine(n) => NameAt(s, i, j, lt, n, true)
      else None
    else None
  }

  /** The head `[\s]*#include[\s]+<` of an `#include` match: white space from
      `i`, the word at `j`, white space, and '<' at `lt`. */
  ghost predicate IncludeHead(s: string, i: nat, j: nat, lt: nat)
  {
    && i <= j && j + 8 < lt < |s| && AllSpace(s, i, j) && s[j..j + 8] == "#include"
    && AllSpace(s, j + 8, lt) && s[lt] == '<'
  }

  /** The rest of a directive match after its head: `[a-zA-z0-9_.]+>[\s\r\n]*`. */
  function AnyNameAt(s: string, i: nat, j: nat, lt: nat): (r: Option<Hit>)
    requires IncludeHead(s, i, j, lt)
    ensures r.Some? ==> r.value.start == i && IncludeShape(s, r.value)
    ensures r.Some? ==> IsName(r.value.name) && r.value.end == SpaceEnd(s, r.value.close)
  {
    var m := NameEnd(s, lt + 1);
    if m > lt + 1 && m < |s| && s[m] == '>' then Some(Hit(i, j, lt + 1, s[lt + 1..m], m + 1, SpaceEnd(s, m + 1)))
    else None
  }

  /** The rest of a match of the head (`line` false) or line (`line` true)
      pattern for `n` after its head: `n>`, then for the line pattern `[\s\r\n]*`. */
  function NameAt(s: string, i: nat, j: nat, lt: nat, n: string, line: bool): (r: Option<Hit>)
    requires IncludeHead(s, i, j, lt)
    ensures r.Some? ==> r.value.start == i && IncludeShape(s, r.value) && r.value.name == n
    ensures r.Some? ==> r.value.end == if line then SpaceEnd(s, r.value.close) else r.value.close
  {
    var m := lt + 1 + |n|;
    if m < |s| && s[lt + 1..m] == n && s[m] == '>' then
      Some(Hit(i, j, lt + 1, n, m + 1, if line then SpaceEnd(s, m + 1) else m + 1))
    else None
  }

  /** The match of `^[\s]*#pragma[\s]+once[\s\r\n]*` that begins at `i`, if any. */
  function PragmaAt(s: string, i: nat): (r: Option<Hit>)
    requires i <= |s|
    ensures r.Some? ==>
              && r.value.start == i && i <= r.value.hash && r.value.hash + 7 < r.value.open
              && r.value.close == r.value.open + 4 && r.value.close <= r.value.end <= |s|
              && AllSpace(s, i, r.value.hash) && s[r.value.hash..r.value.hash + 7] == "#pragma"
              && AllSpace(s, r.value.hash + 7, r.value.open) && s[r.value.open..r.value.close] == "once"
              && r.value.end == SpaceEnd(s, r.value.close)
  {
    var j := SpaceEnd(s, i);
    if j + 7 <= |s| && s[j..j + 7] == "#pragma" then
      var k := SpaceEnd(s, j + 7);
      if k > j + 7 && k + 4 <= |s| && s[k..k + 4] == "once" then Some(Hit(i, j, k, "once", k + 4, SpaceEnd(s, k + 4)))
      else None
    else None
  }

  /** The match of `p` that begins at `i`, if any (there is at most one). */
  function MatchAt(p: Pattern, s: string, i: nat): (r: Option<Hit>)
    requires i <= |s|
    ensures r.Some? ==> r.value.start == i && r.value.hash < r.value.end <= |s|
  {
    if p == PragmaOnce then PragmaAt(s, i) else IncludeAt(p, s, i)
  }

  /** Conversely, text of the shape `[\s]*#include[\s]+<name>` at `start` is a
      match of the head pattern for `name` ... */
  lemma HeadMatchComplete(s: string, h: Hit)
    requires IncludeShape(s, h) && h.end == h.close
    ensures MatchAt(DirectiveHead(h.name), s, h.start) == Some(h)
  {
    PrefixParsed(s, h);
    assert IncludeHead(s, h.start, h.hash, h.open - 1);
    assert NameAt(s, h.start, h.hash, h.open - 1, h.name, false) == Some(h);
  }

  /** ... of the line pattern for `name`, with the trailing white space ... */
  lemma LineMatchComplete(s: string, h: Hit)
    requires IncludeShape(s, h) && h.end == h.close
    ensures MatchAt(DirectiveLine(h.name), s, h.start) == Some(h.(end := SpaceEnd(s, h.close)))
  {
    PrefixParsed(s, h);
    assert IncludeHead(s, h.start, h.hash, h.open - 1);
    assert NameAt(s, h.start, h.hash, h.open - 1, h.name, true) == Some(h.(end := SpaceEnd(s, h.close)));
  }

  /** ... and of the directive pattern when `name` is made of name characters. */
  lemma DirectiveMatchComplete(s: string, h: Hit)
    requires IncludeShape(s, h) && h.end == h.close && IsName(h.name)
    ensures MatchAt(Directive, s, h.start) == Some(h.(end := SpaceEnd(s, h.close)))
  {
    PrefixParsed(s, h);
    NameRun(s, h);
    assert IncludeHead(s, h.start, h.hash, h.open - 1);
    assert AnyNameAt(s, h.start, h.hash, h.open - 1) == Some(h.(end := SpaceEnd(s, h.close)));
  }

  lemma NameRun(s: string, h: Hit)
    requires IncludeShape(s, h) && IsName(h.name)
    ensures NameEnd(s, h.open) == h.close - 1
  {
    forall k | h.open <= k < h.close - 1
      ensures IsNameChar(s[k])
    {
      assert s[k] == s[h.open..h.close - 1][k - h.open];
    }
    NameEndAt(s, h.open, h.close - 1);
  }

  /** The greedy runs of an `#include` match stop at '#' and at '<'. */
  lemma PrefixParsed(s: string, h: Hit)
    requires IncludeShape(s, h)
    ensures SpaceEnd(s, h.start) == h.hash
    ensures SpaceEnd(s, h.hash + 8) == h.open - 1
  {
    assert s[h.hash] == s[h.hash..h.hash + 8][0];
    SpaceEndAt(s, h.start, h.hash);
    SpaceEndAt(s, h.hash + 8, h.open - 1);
  }

  /** `^` for a search that began at `from`: `regex_search` over a sub-range
      takes the first position of the range for a line start (`bolAtFrom`);
      the searches inside `regex_replace` do not, so there `^` holds only at
      real line starts. */
  predicate Anchored(s: string, from: nat, bolAtFrom: bool, i: nat)
    requires i <= |s|
  {
    (i == from && bolAtFrom) || LineStart(s, i)
  }

  /** What a search that began at `from` finds at `k`: the match of `p` there
      when `^` holds there, and nothing otherwise. */
  function Candidate(p: Pattern, s: string, from: nat, bolAtFrom: bool, k: nat): Option<Hit>
    requires k <= |s|
  {
    if Anchored(s, from, bolAtFrom, k) then MatchAt(p, s, k) else None
  }

  /** The candidates at every position of `s`, its end included. */
  function Candidates(p: Pattern, s: string, from: nat, bolAtFrom: bool): (c: seq<Option<Hit>>)
    ensures |c| == |s| + 1
  {
    seq(|s| + 1, k requires 0 <= k <= |s| => Candidate(p, s, from, bolAtFrom, k))
  }

  /** The first position at or after `i` that holds something, `|c|` if none. */
  function FirstSome(c: seq<Option<Hit>>, i: nat): (r: nat)
    requires i <= |c|
    ensures i <= r <= |c| && (r < |c| ==> c[r].Some?)
    ensures forall k :: i <= k < r ==> c[k].None?
    decreases |c| - i
  {
    if i == |c| || c[i].Some? then i else FirstSome(c, i + 1)
  }

  /** `regex_search` of `p` over `s[from..]`: the leftmost match. */
  function Search(p: Pattern, s: string, from: nat, bolAtFrom: bool): (r: Option<Hit>)
    requires from <= |s|
    ensures r.Some? ==> from <= r.value.start <= |s| && MatchAt(p, s, r.value.start) == r
    ensures r.Some? ==> Anchored(s, from, bolAtFrom, r.value.start)
  {
    var c := Candidates(p, s, from, bolAtFrom);
    var k := FirstSome(c, from);
    if k < |c| then c[k] else None
  }

  /** A search finds a match that stands where it begins. */
  lemma SearchFindsAt(p: Pattern, s: string, from: nat, bolAtFrom: bool)
    requires from <= |s| && Anchored(s, from, bolAtFrom, from) && MatchAt(p, s, from).Some?
    ensures Search(p, s, from, bolAtFrom) == MatchAt(p, s, from)
  {
    var c := Candidates(p, s, from, bolAtFrom);
    assert c[from] == Candidate(p, s, from, bolAtFrom, from);
  }

  /** The match found is the leftmost one: no position between `from` and it
      (or the end, when there is none) holds an anchored match. */
  lemma SearchLeftmost(p: Pattern, s: string, from: nat, bolAtFrom: bool)
    requires from <= |s|
    ensures var r := Search(p, s, from, bolAtFrom);
            forall k :: from <= k <= |s| && (r.Some? ==> k < r.value.start) ==>
              !(Anchored(s, from, bolAtFrom, k) && MatchAt(p, s, k).Some?)
  {
    var c := Candidates(p, s, from, bolAtFrom);
    var n := FirstSome(c, from);
    var r := Search(p, s, from, bolAtFrom);
    if n < |c| {
      assert c[n] == Candidate(p, s, from, bolAtFrom, n);
      assert r.value.start == n;
    }
    forall k | from <= k <= |s| && (r.Some? ==> k < r.value.start)
      ensures !(Anchored(s, from, bolAtFrom, k) && MatchAt(p, s, k).Some?)
    {
      assert c[k].None?;
      assert c[k] == Candidate(p, s, from, bolAtFrom, k);
    }
  }

  /** `regex_replace(s, p, rep, format_first_only)`: the first match is
      replaced by `rep` (taken literally) and the rest is copied. */
  function ReplaceFirst(p: Pattern, s: string, rep: string): string
  {
    match Search(p, s, 0, true)
    case None => s
    case Some(h) => s[..h.start] + rep + s[h.end..]
  }

  /** `regex_replace(s, p, rep)` on `s[from..]`, the searches after the first
      one starting where the previous match ended. */
  function ReplaceAllFrom(p: Pattern, s: string, from: nat, rep: string): string
    requires from <= |s|
    decreases |s| - from
  {
    match Search(p, s, from, false)
    case None => s[from..]
    case Some(h) => s[from..h.start] + rep + ReplaceAllFrom(p, s, h.end, rep)
  }

  /** `regex_replace(s, p, rep)`. The search at position 0 treats it as a line
      start, which `LineStart` already does. */
  function ReplaceAll(p: Pattern, s: string, rep: string): string
  {
    ReplaceAllFrom(p, s, 0, rep)
  }

  /** There is a match of `p` at some line start of `s`. */
  ghost predicate HasLineMatch(p: Pattern, s: string)
  {
    exists i :: 0 <= i <= |s| && LineStart(s, i) && MatchAt(p, s, i).Some?
  }

  /** Deleting every match leaves the text unchanged exactly when there is
      none at a line start, and otherwise makes it strictly shorter. */
  lemma {:induction false} DeleteAllShrinks(p: Pattern, s: string, from: nat)
    requires from <= |s|
    ensures |ReplaceAllFrom(p, s, from, "")| <= |s| - from
    ensures Search(p, s, from, false).None? ==> ReplaceAllFrom(p, s, from, "") == s[from..]
    ensures Search(p, s, from, false).Some? ==> |ReplaceAllFrom(p, s, from, "")| < |s| - from
    decreases |s| - from
  {
    match Search(p, s, from, false)
    case None =>
    case Some(h) =>
      DeleteAllShrinks(p, s, h.end);
  }

  lemma DeleteAllIdentity(p: Pattern, s: string)
    ensures ReplaceAll(p, s, "") == s <==> !HasLineMatch(p, s)
    ensures HasLineMatch(p, s) ==> |ReplaceAll(p, s, "")| < |s|
  {
    DeleteAllShrinks(p, s, 0);
    SearchLeftmost(p, s, 0, false);
    var r := Search(p, s, 0, false);
    if r.Some? {
      assert LineStart(s, r.value.start);
    } else {
      assert forall i :: 0 <= i <= |s| && LineStart(s, i) ==> MatchAt(p, s, i).None?;
    }
  }

  /** Replacing the first match splices `rep` over exactly the text of the
      leftmost match at a line start, and changes nothing when there is none. */
  lemma ReplaceFirstSplices(p: Pattern, s: string, rep: string)
    ensures !HasLineMatch(p, s) ==> ReplaceFirst(p, s, rep) == s
    ensures HasLineMatch(p, s) ==>
              exists i, e :: 0 <= i < e <= |s| && LineStart(s, i) && MatchAt(p, s, i).Some?
                             && MatchAt(p, s, i).value.end == e
                             && (forall j :: 0 <= j < i && LineStart(s, j) ==> MatchAt(p, s, j).None?)
                             && ReplaceFirst(p, s, rep) == s[..i] + rep + s[e..]
  {
    SearchLeftmost(p, s, 0, true);
    var r := Search(p, s, 0, true);
    if r.Some? {
      var h := r.value;
      assert LineStart(s, h.start);
      forall j | 0 <= j < h.start && LineStart(s, j)
        ensures MatchAt(p, s, j).None?
      {
        assert Anchored(s, 0, true, j);
      }
      assert h.start < h.end <= |s| && MatchAt(p, s, h.start).value.end == h.end
             && (forall j :: 0 <= j < h.start && LineStart(s, j) ==> MatchAt(p, s, j).None?)
             && ReplaceFirst(p, s, rep) == s[..h.start] + rep + s[h.end..];
    } else {
      assert forall i :: 0 <= i <= |s| && LineStart(s, i) ==> MatchAt(p, s, i).None?;
    }
  }
}
