/** String operations over `seq<char>`. The two programs use `indexOf`,
    global replacement of a literal pattern and `Array.prototype.join`;
    ASCII lower-casing stands in for the case-insensitive `i` flag of a
    regular expression. Splitting at a separator and the text after a URL's
    first `?` are reference definitions used only to state properties.
    Searches move a position forward through the text instead of slicing it,
    the way JavaScript's `indexOf(pat, from)` and a global regular expression's
    `lastIndex` do. Step lemmas take the position they move to as a parameter
    (`next`), so that the induction steps mention the very same term. */
module Strings {
  import opened Wrappers
  import opened Sequences

  /** `pat` occurs in `s` starting at index `i`. */
  predicate OccursAt(s: string, pat: string, i: nat) {
    i + |pat| <= |s| && forall k :: 0 <= k < |pat| ==> s[i + k] == pat[k]
  }

  predicate IsPrefix(p: string, s: string) {
    |p| <= |s| && s[..|p|] == p
  }

  predicate IsSuffix(p: string, s: string) {
    |p| <= |s| && s[|s| - |p|..] == p
  }

  /** JavaScript's `s.indexOf(pat, from)` for `from <= |s|`: the first index at
      or after `from` where `pat` occurs, `None` standing for `-1`. */
  function IndexFrom(s: string, pat: string, from: nat): (r: Option<nat>)
    ensures r.Some? ==> from <= r.value && OccursAt(s, pat, r.value)
    ensures r.Some? ==> forall j: nat :: from <= j < r.value ==> !OccursAt(s, pat, j)
    ensures r.None? ==> forall j: nat :: from <= j ==> !OccursAt(s, pat, j)
    decreases |s| - from
  {
    if from + |pat| > |s| then None
    else if OccursAt(s, pat, from) then Some(from)
    else IndexFrom(s, pat, from + 1)
  }

  /** JavaScript's `s.indexOf(pat)`. */
  function IndexOf(s: string, pat: string): (r: Option<nat>)
    ensures r.Some? ==> OccursAt(s, pat, r.value)
    ensures r.Some? ==> forall j: nat :: j < r.value ==> !OccursAt(s, pat, j)
    ensures r.None? ==> forall j: nat :: !OccursAt(s, pat, j)
  {
    IndexFrom(s, pat, 0)
  }

  /** `pat` occurs somewhere in `s` (`s.indexOf(pat) !== -1`). */
  predicate Contains(s: string, pat: string) {
    IndexOf(s, pat).Some?
  }

  /** An occurrence with none between `from` and it is the one the search finds. */
  lemma IndexFromFirst(s: string, pat: string, from: nat, i: nat)
    requires from <= i && OccursAt(s, pat, i)
    requires forall j: nat :: from <= j < i ==> !OccursAt(s, pat, j)
    ensures IndexFrom(s, pat, from) == Some(i)
  {
    var r := IndexFrom(s, pat, from);
    assert r.Some?;
    assert !(r.value < i);
  }

  /** With no occurrence at or after `from`, the search fails. */
  lemma IndexFromNone(s: string, pat: string, from: nat)
    requires forall j: nat :: from <= j ==> !OccursAt(s, pat, j)
    ensures IndexFrom(s, pat, from).None?
  {
  }

  /** A search that matches at `from` stops there. */
  lemma IndexFromHere(s: string, pat: string, from: nat)
    requires OccursAt(s, pat, from)
    ensures IndexFrom(s, pat, from) == Some(from)
  {
  }

  /** A search that does not match at `from` goes on from the next position. */
  lemma IndexFromStep(s: string, pat: string, from: nat, next: nat)
    requires next == from + 1 && from + |pat| <= |s| && !OccursAt(s, pat, from)
    ensures IndexFrom(s, pat, from) == IndexFrom(s, pat, next)
  {
  }

  /** An occurrence inside a slice is an occurrence in the whole text. */
  lemma SliceOccurrence(s: string, pat: string, lo: nat, hi: nat, j: nat)
    requires lo <= hi <= |s| && OccursAt(s[lo..hi], pat, j)
    ensures OccursAt(s, pat, lo + j)
  {
    forall k | 0 <= k < |pat| ensures s[lo + j + k] == pat[k] {
      assert s[lo..hi][j + k] == pat[k];
    }
  }

  /** A slice with no occurrence starting inside it contains no occurrence. */
  lemma FreeSlice(s: string, pat: string, lo: nat, hi: nat)
    requires lo <= hi <= |s|
    requires forall j: nat :: lo <= j < hi ==> !OccursAt(s, pat, j)
    requires |pat| > 0
    ensures !Contains(s[lo..hi], pat)
  {
    forall j: nat ensures !OccursAt(s[lo..hi], pat, j) {
      if OccursAt(s[lo..hi], pat, j) {
        SliceOccurrence(s, pat, lo, hi, j);
      }
    }
  }

  /** A single character occurs exactly where the text holds it. */
  lemma OccursAtChar(s: string, c: char, i: nat)
    ensures OccursAt(s, [c], i) <==> i < |s| && s[i] == c
  {
    if i < |s| && s[i] == c {
      forall k | 0 <= k < 1 ensures s[i + k] == [c][k] {
      }
    }
    if OccursAt(s, [c], i) {
      assert [c][0] == c;
    }
  }

  lemma ContainsChar(s: string, c: char)
    ensures Contains(s, [c]) <==> c in s
  {
    if c in s {
      var i :| 0 <= i < |s| && s[i] == c;
      OccursAtChar(s, c, i);
    }
    var r := IndexOf(s, [c]);
    if r.Some? {
      OccursAtChar(s, c, r.value);
    }
  }

  /** Occurrences in `b` are the occurrences in `a + b` moved left by `|a|`. */
  lemma OccursAfter(a: string, b: string, pat: string, j: nat)
    ensures OccursAt(a + b, pat, |a| + j) <==> OccursAt(b, pat, j)
  {
    if OccursAt(b, pat, j) {
      forall k | 0 <= k < |pat| ensures (a + b)[|a| + j + k] == pat[k] {
        assert b[j + k] == pat[k];
      }
    }
    if OccursAt(a + b, pat, |a| + j) {
      forall k | 0 <= k < |pat| ensures b[j + k] == pat[k] {
        assert (a + b)[|a| + j + k] == pat[k];
      }
    }
  }

  /** Searching `a + b` from inside `b` (at position `at`) is searching `b`. */
  lemma {:induction false} IndexFromAfter(a: string, b: string, pat: string, from: nat, at: nat)
    requires at == |a| + from
    ensures IndexFrom(a + b, pat, at) ==
      (match IndexFrom(b, pat, from) case None => None case Some(j) => Some(|a| + j))
    decreases |b| - from
  {
    if from + |pat| <= |b| {
      OccursAfter(a, b, pat, from);
      if !OccursAt(b, pat, from) {
        var next := from + 1;
        var nextAt := at + 1;
        IndexFromStep(b, pat, from, next);
        IndexFromStep(a + b, pat, at, nextAt);
        IndexFromAfter(a, b, pat, next, nextAt);
      }
    }
  }

  /** When no occurrence can start inside `a`, the search of `a + b` is the
      search of `b`, moved right by `|a|`. */
  lemma IndexOfPastPrefix(a: string, b: string, pat: string)
    requires forall j: nat :: j < |a| ==> !OccursAt(a + b, pat, j)
    ensures IndexOf(a + b, pat) ==
      (match IndexOf(b, pat) case None => None case Some(j) => Some(|a| + j))
  {
    var s := a + b;
    IndexFromAfter(a, b, pat, 0, |a|);
    var r := IndexFrom(s, pat, |a|);
    if r.Some? {
      IndexFromFirst(s, pat, 0, r.value);
    } else {
      IndexFromNone(s, pat, 0);
    }
  }

  /** `Contains` holds exactly when there is an occurrence. */
  lemma ContainsIff(s: string, pat: string)
    ensures Contains(s, pat) <==> exists i: nat :: OccursAt(s, pat, i)
  {
    var r := IndexOf(s, pat);
    if r.Some? {
      assert OccursAt(s, pat, r.value);
    }
  }

  /** A text whose part `a` does not hold the first character of `pat`
      contains `pat` exactly when its part `b` does. */
  lemma ContainsPastPrefix(a: string, b: string, pat: string)
    requires |pat| > 0 && pat[0] !in a
    ensures Contains(a + b, pat) <==> Contains(b, pat)
  {
    forall j: nat | j < |a|
      ensures !OccursAt(a + b, pat, j)
    {
      assert (a + b)[j] == a[j] != pat[0];
    }
    IndexOfPastPrefix(a, b, pat);
  }

  /** Searching a concatenation for a character: the left part is searched first. */
  lemma IndexOfCharConcat(a: string, b: string, c: char)
    ensures c in a ==> IndexOf(a + b, [c]) == IndexOf(a, [c])
    ensures c !in a ==>
      IndexOf(a + b, [c]) == (match IndexOf(b, [c]) case None => None case Some(j) => Some(|a| + j))
  {
    var s := a + b;
    ContainsChar(a, c);
    forall j: nat | j < |a|
      ensures OccursAt(s, [c], j) <==> OccursAt(a, [c], j)
    {
      OccursAtChar(s, c, j);
      OccursAtChar(a, c, j);
    }
    if c in a {
      var i := IndexOf(a, [c]).value;
      IndexFromFirst(s, [c], 0, i);
    } else {
      forall j: nat | j < |a|
        ensures !OccursAt(s, [c], j)
      {
        OccursAtChar(a, c, j);
      }
      IndexOfPastPrefix(a, b, [c]);
    }
  }

  /** Global replacement from position `from` on, as a global regular
      expression does it: find the next occurrence, keep the text before it,
      emit `rep`, and resume right after the occurrence. */
  function ReplaceFrom(s: string, pat: string, rep: string, from: nat): (r: string)
    requires |pat| > 0 && from <= |s|
    decreases |s| - from
  {
    var r := IndexFrom(s, pat, from);
    if r.None? then s[from..]
    else s[from..r.value] + rep + ReplaceFrom(s, pat, rep, r.value + |pat|)
  }

  /** JavaScript's `s.replace(/pat/g, rep)` for a pattern without regular-expression
      metacharacters and a replacement without `$` patterns: every occurrence,
      found left to right without overlap, is replaced. */
  function ReplaceAll(s: string, pat: string, rep: string): (r: string)
    requires |pat| > 0
    ensures !Contains(s, pat) ==> r == s
  {
    assert s[0..] == s;
    ReplaceFrom(s, pat, rep, 0)
  }

  /** JavaScript's `s.split(sep)` from position `from` on: the pieces between
      successive occurrences of `sep`. */
  function SplitFrom(s: string, sep: string, from: nat): (parts: seq<string>)
    requires |sep| > 0 && from <= |s|
    ensures |parts| > 0
    decreases |s| - from
  {
    var r := IndexFrom(s, sep, from);
    if r.None? then [s[from..]]
    else [s[from..r.value]] + SplitFrom(s, sep, r.value + |sep|)
  }

  /** JavaScript's `s.split(sep)` for a non-empty separator. */
  function Split(s: string, sep: string): (parts: seq<string>)
    requires |sep| > 0
    ensures |parts| > 0
  {
    SplitFrom(s, sep, 0)
  }

  /** JavaScript's `parts.join(sep)`. */
  function Join(parts: seq<string>, sep: string): string {
    if |parts| == 0 then ""
    else if |parts| == 1 then parts[0]
    else parts[0] + sep + Join(parts[1..], sep)
  }

  /** One step of global replacement: the text before the next occurrence,
      the replacement, and the replacement of the rest. */
  lemma ReplaceFromNext(s: string, pat: string, rep: string, from: nat, i: nat, next: nat)
    requires |pat| > 0 && from <= |s| && IndexFrom(s, pat, from) == Some(i) && next == i + |pat|
    ensures next <= |s|
    ensures ReplaceFrom(s, pat, rep, from) == s[from..i] + rep + ReplaceFrom(s, pat, rep, next)
  {
  }

  /** One step of a split: the piece before the next occurrence, then the
      split of the rest. */
  lemma SplitFromNext(s: string, sep: string, from: nat, i: nat, next: nat)
    requires |sep| > 0 && from <= |s| && IndexFrom(s, sep, from) == Some(i) && next == i + |sep|
    ensures next <= |s|
    ensures SplitFrom(s, sep, from) == [s[from..i]] + SplitFrom(s, sep, next)
  {
  }

  /** The last piece of a split runs to the end of the text. */
  lemma SplitFromLast(s: string, sep: string, from: nat)
    requires |sep| > 0 && from <= |s| && IndexFrom(s, sep, from).None?
    ensures SplitFrom(s, sep, from) == [s[from..]]
  {
  }

  /** No piece of a split holds the separator. */
  lemma {:induction false} SplitFromPiecesFree(s: string, sep: string, from: nat)
    requires |sep| > 0 && from <= |s|
    ensures forall k :: 0 <= k < |SplitFrom(s, sep, from)| ==> !Contains(SplitFrom(s, sep, from)[k], sep)
    decreases |s| - from
  {
    var r := IndexFrom(s, sep, from);
    if r.None? {
      FreeSlice(s, sep, from, |s|);
      assert s[from..] == s[from..|s|];
      SplitFromLast(s, sep, from);
    } else {
      var next := r.value + |sep|;
      FreeSlice(s, sep, from, r.value);
      SplitFromNext(s, sep, from, r.value, next);
      SplitFromPiecesFree(s, sep, next);
    }
  }

  lemma SplitPiecesFree(s: string, sep: string)
    requires |sep| > 0
    ensures forall k :: 0 <= k < |Split(s, sep)| ==> !Contains(Split(s, sep)[k], sep)
  {
    SplitFromPiecesFree(s, sep, 0);
  }

  /** Joining a first piece onto a non-empty rest. */
  lemma JoinCons(p: string, rest: seq<string>, sep: string)
    requires |rest| > 0
    ensures Join([p] + rest, sep) == p + sep + Join(rest, sep)
  {
    assert ([p] + rest)[1..] == rest;
  }

  /** The text from `from` on is the piece before the occurrence at `i`, the
      occurrence, and the text after it. */
  lemma AroundOccurrence(s: string, pat: string, from: nat, i: nat, next: nat)
    requires from <= i && OccursAt(s, pat, i) && next == i + |pat|
    ensures s[from..] == s[from..i] + pat + s[next..]
  {
    assert s[i..next] == pat;
  }

  /** Joining the pieces of a split with the same separator gives the input back. */
  lemma {:induction false} JoinSplitFrom(s: string, sep: string, from: nat)
    requires |sep| > 0 && from <= |s|
    ensures Join(SplitFrom(s, sep, from), sep) == s[from..]
    decreases |s| - from
  {
    var r := IndexFrom(s, sep, from);
    if r.None? {
      SplitFromLast(s, sep, from);
    } else {
      var i := r.value;
      var next := i + |sep|;
      SplitFromNext(s, sep, from, i, next);
      JoinSplitFrom(s, sep, next);
      JoinCons(s[from..i], SplitFrom(s, sep, next), sep);
      AroundOccurrence(s, sep, from, i, next);
    }
  }

  lemma JoinSplit(s: string, sep: string)
    requires |sep| > 0
    ensures Join(Split(s, sep), sep) == s
  {
    JoinSplitFrom(s, sep, 0);
    assert s[0..] == s;
  }

  /** Global replacement is split-then-join: the text between occurrences is
      kept verbatim and each occurrence becomes `rep`. */
  lemma {:induction false} ReplaceIsSplitJoinFrom(s: string, pat: string, rep: string, from: nat)
    requires |pat| > 0 && from <= |s|
    ensures ReplaceFrom(s, pat, rep, from) == Join(SplitFrom(s, pat, from), rep)
    decreases |s| - from
  {
    var r := IndexFrom(s, pat, from);
    if r.None? {
      SplitFromLast(s, pat, from);
    } else {
      var i := r.value;
      var next := i + |pat|;
      ReplaceFromNext(s, pat, rep, from, i, next);
      SplitFromNext(s, pat, from, i, next);
      ReplaceIsSplitJoinFrom(s, pat, rep, next);
      JoinCons(s[from..i], SplitFrom(s, pat, next), rep);
    }
  }

  lemma ReplaceAllIsSplitJoin(s: string, pat: string, rep: string)
    requires |pat| > 0
    ensures ReplaceAll(s, pat, rep) == Join(Split(s, pat), rep)
  {
    ReplaceIsSplitJoinFrom(s, pat, rep, 0);
  }

  /** Removing `pat` from between a kept prefix and a subsequence of the rest. */
  lemma DeletionStep(pre: string, pat: string, kept: string, rest: string)
    requires IsSubsequence(kept, rest)
    ensures IsSubsequence(pre + "" + kept, pre + pat + rest)
  {
    SubsequenceDropPrefix(kept, pat, rest);
    SubsequenceKeepPrefix(pre, kept, pat + rest);
    assert pre + pat + rest == pre + (pat + rest);
    assert pre + "" + kept == pre + kept;
  }

  /** Deleting every occurrence keeps all other characters in order. */
  lemma {:induction false} DeleteFromIsSubsequence(s: string, pat: string, from: nat)
    requires |pat| > 0 && from <= |s|
    ensures IsSubsequence(ReplaceFrom(s, pat, "", from), s[from..])
    decreases |s| - from
  {
    var r := IndexFrom(s, pat, from);
    if r.None? {
      SubsequenceOfSelf(s[from..]);
    } else {
      var i := r.value;
      var next := i + |pat|;
      ReplaceFromNext(s, pat, "", from, i, next);
      DeleteFromIsSubsequence(s, pat, next);
      AroundOccurrence(s, pat, from, i, next);
      DeletionStep(s[from..i], pat, ReplaceFrom(s, pat, "", next), s[next..]);
    }
  }

  lemma DeleteAllIsSubsequence(s: string, pat: string)
    requires |pat| > 0
    ensures IsSubsequence(ReplaceAll(s, pat, ""), s)
  {
    DeleteFromIsSubsequence(s, pat, 0);
    assert s[0..] == s;
  }

  /** The length bookkeeping of one replacement step: `d` is the change one
      replacement makes, `n` the pieces after the step, `m` the pieces in all. */
  lemma LengthStep(total: int, from: int, i: int, d: int, pat: int, later: int, m: int, n: int)
    requires later == total - (i + pat) + (n - 1) * d
    requires m == n + 1
    ensures (i - from) + (pat + d) + later == total - from + (m - 1) * d
  {
    assert (m - 1) * d == (n - 1) * d + d;
  }

  /** Each replacement changes the length by `|rep| - |pat|`; the number of
      replacements is one less than the number of split pieces. */
  lemma {:induction false} ReplaceFromLength(s: string, pat: string, rep: string, from: nat)
    requires |pat| > 0 && from <= |s|
    ensures |ReplaceFrom(s, pat, rep, from)| ==
      |s| - from + (|SplitFrom(s, pat, from)| - 1) * (|rep| - |pat|)
    decreases |s| - from
  {
    var r := IndexFrom(s, pat, from);
    if r.None? {
      SplitFromLast(s, pat, from);
    } else {
      var i := r.value;
      var next := i + |pat|;
      ReplaceFromNext(s, pat, rep, from, i, next);
      SplitFromNext(s, pat, from, i, next);
      ReplaceFromLength(s, pat, rep, next);
      LengthStep(|s|, from, i, |rep| - |pat|, |pat|, |ReplaceFrom(s, pat, rep, next)|,
        |SplitFrom(s, pat, from)|, |SplitFrom(s, pat, next)|);
    }
  }

  lemma ReplaceAllLength(s: string, pat: string, rep: string)
    requires |pat| > 0
    ensures |ReplaceAll(s, pat, rep)| == |s| + (|Split(s, pat)| - 1) * (|rep| - |pat|)
  {
    ReplaceFromLength(s, pat, rep, 0);
  }

  /** A character occurs nowhere inside a stretch of text that does not hold it. */
  lemma CharFreeStretch(s: string, lo: nat, hi: nat, c: char)
    requires lo <= hi <= |s| && c !in s[lo..hi]
    ensures forall j: nat :: lo <= j < hi ==> !OccursAt(s, [c], j)
  {
    forall j: nat | lo <= j < hi
      ensures !OccursAt(s, [c], j)
    {
      assert s[j] == s[lo..hi][j - lo];
      OccursAtChar(s, c, j);
    }
  }

  /** Splitting on a character from `from`, when the rest of the text is one
      piece without it, gives that piece. */
  lemma SplitCharLast(s: string, from: nat, c: char)
    requires from <= |s| && c !in s[from..]
    ensures SplitFrom(s, [c], from) == [s[from..]]
  {
    assert s[from..] == s[from..|s|];
    CharFreeStretch(s, from, |s|, c);
    IndexFromNone(s, [c], from);
    SplitFromLast(s, [c], from);
  }

  /** Splitting on a character from `from`, when the text there is a piece
      without it followed by the character, yields that piece first. */
  lemma SplitCharNext(s: string, from: nat, p: string, c: char, next: nat)
    requires from + |p| < |s| && s[from..from + |p|] == p && c !in p && s[from + |p|] == c
    requires next == from + |p| + 1
    ensures SplitFrom(s, [c], from) == [p] + SplitFrom(s, [c], next)
  {
    var at := from + |p|;
    CharFreeStretch(s, from, at, c);
    OccursAtChar(s, c, at);
    IndexFromFirst(s, [c], from, at);
    SplitFromNext(s, [c], from, at, next);
  }

  /** Splitting on a single character, from a position where the joined
      pieces start, gives the pieces back when none of them holds it. */
  lemma {:induction false} SplitJoinCharFrom(s: string, from: nat, parts: seq<string>, c: char)
    requires from <= |s| && |parts| > 0
    requires forall k :: 0 <= k < |parts| ==> c !in parts[k]
    requires s[from..] == Join(parts, [c])
    ensures SplitFrom(s, [c], from) == parts
    decreases |parts|
  {
    var p := parts[0];
    if |parts| == 1 {
      SplitCharLast(s, from, c);
    } else {
      var rest := parts[1..];
      var next := from + |p| + 1;
      assert s[from..] == p + ([c] + Join(rest, [c]));
      assert s[from..from + |p|] == p;
      assert s[from + |p|] == s[from..][|p|];
      assert s[next..] == Join(rest, [c]);
      SplitCharNext(s, from, p, c, next);
      SplitJoinCharFrom(s, next, rest, c);
      assert [p] + rest == parts;
    }
  }

  lemma SplitJoinChar(parts: seq<string>, c: char)
    requires |parts| > 0
    requires forall k :: 0 <= k < |parts| ==> c !in parts[k]
    ensures Split(Join(parts, [c]), [c]) == parts
  {
    var s := Join(parts, [c]);
    assert s[0..] == s;
    SplitJoinCharFrom(s, 0, parts, c);
  }

  /** ASCII lower-casing of one character (the case folding a regular
      expression's `i` flag applies to ASCII letters). */
  function LowerChar(c: char): char {
    if 'A' <= c <= 'Z' then (c as int + 32) as char else c
  }

  /** Lower-cases every character of `s`. */
  function Lower(s: string): (r: string)
    ensures |r| == |s|
    ensures forall i :: 0 <= i < |s| ==> r[i] == LowerChar(s[i])
    decreases |s|
  {
    if |s| == 0 then [] else [LowerChar(s[0])] + Lower(s[1..])
  }

  /** Lower-casing works character by character, so it commutes with
      concatenation. */
  lemma LowerConcat(a: string, b: string)
    ensures Lower(a + b) == Lower(a) + Lower(b)
  {
  }

  /** The part of a URL after its first `?`, if it has one. */
  function QueryOf(url: string): (q: Option<string>)
    ensures q.None? <==> '?' !in url
    ensures q.Some? ==> IsSuffix(q.value, url) && |q.value| < |url|
  {
    ContainsChar(url, '?');
    match IndexOf(url, "?")
    case None => None
    case Some(i) => Some(url[i + 1..])
  }

  /** A prefix without `?` does not change the query. */
  lemma QueryPastPrefix(a: string, b: string)
    requires '?' !in a
    ensures QueryOf(a + b) == QueryOf(b)
  {
    IndexOfCharConcat(a, b, '?');
    ContainsChar(b, '?');
    if '?' in b {
      var i := IndexOf(b, "?").value;
      assert (a + b)[|a| + i + 1..] == b[i + 1..];
    }
  }

  /** Text appended after a URL that already has a query extends the query. */
  lemma QueryExtends(a: string, b: string)
    requires '?' in a
    ensures QueryOf(a + b) == Some(QueryOf(a).value + b)
  {
    IndexOfCharConcat(a, b, '?');
    ContainsChar(a, '?');
    var i := IndexOf(a, "?").value;
    assert (a + b)[i + 1..] == a[i + 1..] + b;
  }

  /** A `?` appended to a URL without one starts the query. */
  lemma QueryStarts(a: string, t: string)
    requires '?' !in a
    ensures QueryOf(a + ("?" + t)) == Some(t)
  {
    QueryPastPrefix(a, "?" + t);
    OccursAtChar("?" + t, '?', 0);
    IndexFromHere("?" + t, "?", 0);
  }
}
