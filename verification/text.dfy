/**
 This module gives the JavaScript string operations the release script relies on a
 meaning over `seq<char>`: searching with `indexOf`, `replace` with a string pattern
 (leftmost occurrence only), `split` and a global replace (all leftmost
 non-overlapping occurrences), `startsWith` and `trim`.
 */
module Text {
  import opened Wrappers

  /** `pat` occurs in `s` starting at index `i`. */
  predicate OccursAt(s: string, pat: string, i: int) {
    0 <= i && i + |pat| <= |s| && s[i..i + |pat|] == pat
  }

  /** `pat` occurs nowhere in `s`. */
  ghost predicate Free(s: string, pat: string) {
    forall i :: !OccursAt(s, pat, i)
  }

  /** `i` is the leftmost occurrence of `pat` in `s`. */
  ghost predicate FirstAt(s: string, pat: string, i: int) {
    OccursAt(s, pat, i) && forall j :: 0 <= j < i ==> !OccursAt(s, pat, j)
  }

  /** The leftmost occurrence of `pat` in `s` at or after `from`. */
  function IndexFrom(s: string, pat: string, from: nat): (r: Option<nat>)
    requires from <= |s|
    decreases |s| - from
    ensures r.None? ==> forall j :: from <= j ==> !OccursAt(s, pat, j)
    ensures r.Some? ==> from <= r.value && OccursAt(s, pat, r.value)
    ensures r.Some? ==> forall j :: from <= j < r.value ==> !OccursAt(s, pat, j)
  {
    if from + |pat| > |s| then None
    else if s[from..from + |pat|] == pat then Some(from)
    else
      assert |pat| > 0;
      IndexFrom(s, pat, from + 1)
  }

  /** `s.indexOf(pat)`, with `None` for JavaScript's -1. */
  function IndexOf(s: string, pat: string): (r: Option<nat>)
    ensures r.None? <==> Free(s, pat)
    ensures r.Some? ==> FirstAt(s, pat, r.value)
  {
    IndexFrom(s, pat, 0)
  }

  /** A leftmost occurrence is unique. */
  lemma FirstAtUnique(s: string, pat: string, i: int, j: int)
    requires FirstAt(s, pat, i) && FirstAt(s, pat, j)
    ensures i == j
  {
  }

  /** Nothing before the leftmost occurrence contains the pattern. */
  lemma FreeBeforeFirst(s: string, pat: string, i: int)
    requires FirstAt(s, pat, i) && |pat| > 0
    ensures Free(s[..i], pat)
  {
    forall j | OccursAt(s[..i], pat, j)
      ensures false
    {
      assert s[..i][j..j + |pat|] == s[j..j + |pat|];
      assert OccursAt(s, pat, j);
    }
  }

  /** `s.replace(pat, rep)` for a string `pat`: only the leftmost occurrence is replaced. */
  function ReplaceFirst(s: string, pat: string, rep: string): (r: string)
    ensures Free(s, pat) ==> r == s
    ensures forall i :: FirstAt(s, pat, i) ==> r == s[..i] + rep + s[i + |pat|..]
  {
    match IndexOf(s, pat)
    case None => s
    case Some(i) => s[..i] + rep + s[i + |pat|..]
  }

  /** The pieces glued back together with `sep` between consecutive ones (`Array.prototype.join`). */
  function Join(pieces: seq<string>, sep: string): string
  {
    if |pieces| == 0 then []
    else if |pieces| == 1 then pieces[0]
    else pieces[0] + sep + Join(pieces[1..], sep)
  }

  /** `s.split(sep)` for a non-empty string separator: the text between leftmost non-overlapping occurrences. */
  function Split(s: string, sep: string): seq<string>
    requires |sep| > 0
    decreases |s|
  {
    var found := IndexOf(s, sep);
    if found.None? then [s]
    else [s[..found.value]] + Split(s[found.value + |sep|..], sep)
  }

  /** No piece contains the separator, and there is more than one piece exactly when the text contains it. */
  lemma {:induction false} SplitPieces(s: string, sep: string)
    requires |sep| > 0
    decreases |s|
    ensures Free(s, sep) ==> Split(s, sep) == [s]
    ensures !Free(s, sep) ==> |Split(s, sep)| >= 2
    ensures forall k :: 0 <= k < |Split(s, sep)| ==> Free(Split(s, sep)[k], sep)
  {
    var found := IndexOf(s, sep);
    if found.Some? {
      var i := found.value;
      FoundFits(s, sep, i);
      SplitStep(s, sep, i);
      var rest := s[i + |sep|..];
      SplitPieces(rest, sep);
      FreeBeforeFirst(s, sep, i);
      var tail := Split(rest, sep);
      assert |tail| >= 1;
      forall k | 0 <= k < |Split(s, sep)| ensures Free(Split(s, sep)[k], sep) {
        if k == 0 {
          assert Split(s, sep)[0] == s[..i];
        } else {
          assert Split(s, sep)[k] == tail[k - 1];
        }
      }
    } else {
      assert Split(s, sep) == [s];
    }
  }

  lemma JoinCons(a: string, p: seq<string>, sep: string)
    requires |p| >= 1
    ensures Join([a] + p, sep) == a + sep + Join(p, sep)
  {
    assert ([a] + p)[1..] == p;
  }

  lemma SplitStep(s: string, sep: string, i: nat)
    requires |sep| > 0 && IndexOf(s, sep) == Some(i) && i + |sep| <= |s|
    ensures Split(s, sep) == [s[..i]] + Split(s[i + |sep|..], sep)
  {
  }

  lemma FoundFits(s: string, sep: string, i: nat)
    requires IndexOf(s, sep) == Some(i)
    ensures i + |sep| <= |s|
  {
  }

  lemma Recompose(s: string, pat: string, i: int)
    requires OccursAt(s, pat, i)
    ensures s == s[..i] + pat + s[i + |pat|..]
  {
    assert s[i..i + |pat|] == pat;
    assert s == s[..i] + s[i..i + |pat|] + s[i + |pat|..];
  }

  /** Splitting loses nothing: joining the pieces with the separator gives back the text. */
  lemma {:induction false} JoinSplit(s: string, sep: string)
    requires |sep| > 0
    decreases |s|
    ensures Join(Split(s, sep), sep) == s
  {
    var r := IndexOf(s, sep);
    if r.Some? {
      var i := r.value;
      var rest := s[i + |sep|..];
      JoinSplit(rest, sep);
      var p := Split(rest, sep);
      FoundFits(s, sep, i);
      SplitStep(s, sep, i);
      JoinCons(s[..i], p, sep);
      Recompose(s, sep, i);
    }
  }

  /** A global replace of a literal non-empty pattern: every leftmost non-overlapping occurrence is replaced. */
  function ReplaceAll(s: string, pat: string, rep: string): string
    requires |pat| > 0
    decreases |s|
  {
    match IndexOf(s, pat)
    case None => s
    case Some(i) => s[..i] + rep + ReplaceAll(s[i + |pat|..], pat, rep)
  }

  lemma ReplaceAllStep(s: string, pat: string, rep: string, i: nat)
    requires |pat| > 0 && IndexOf(s, pat) == Some(i) && i + |pat| <= |s|
    ensures ReplaceAll(s, pat, rep) == s[..i] + rep + ReplaceAll(s[i + |pat|..], pat, rep)
  {
    match IndexOf(s, pat)
    case Some(j) =>
      assert j == i;
  }

  /** A global replace is a split on the pattern followed by a join with the replacement. */
  lemma {:induction false} ReplaceAllIsJoin(s: string, pat: string, rep: string)
    requires |pat| > 0
    decreases |s|
    ensures ReplaceAll(s, pat, rep) == Join(Split(s, pat), rep)
  {
    var r := IndexOf(s, pat);
    if r.Some? {
      var i := r.value;
      FoundFits(s, pat, i);
      var rest := s[i + |pat|..];
      ReplaceAllIsJoin(rest, pat, rep);
      SplitStep(s, pat, i);
      ReplaceAllStep(s, pat, rep, i);
      JoinCons(s[..i], Split(rest, pat), rep);
    }
  }

  /**
   `pat` starts or ends with a character foreign to `sep`, and does not contain
   `sep`: no occurrence of `pat` can overlap an occurrence of `sep`.
   */
  ghost predicate Unlinked(pat: string, sep: string) {
    |pat| > 0 && pat[0] !in sep && pat[|pat| - 1] !in sep && Free(pat, sep)
  }

  /** No occurrence of `pat` can straddle a separator it is unlinked from. */
  lemma ConcatFree(a: string, sep: string, b: string, pat: string)
    requires Free(a, pat) && Free(b, pat) && Unlinked(pat, sep)
    ensures Free(a + sep + b, pat)
  {
    var t := a + sep + b;
    forall i
      ensures !OccursAt(t, pat, i)
    {
      if i < 0 || i + |pat| > |t| {
      } else if i + |pat| <= |a| {
        assert t[i..i + |pat|] == a[i..i + |pat|];
        assert !OccursAt(a, pat, i);
      } else if i >= |a| + |sep| {
        var i' := i - |a| - |sep|;
        assert t[i..i + |pat|] == b[i'..i' + |pat|];
        assert !OccursAt(b, pat, i');
      } else {
        var w := t[i..i + |pat|];
        var last := i + |pat| - 1;
        if i >= |a| {
          assert w[0] == sep[i - |a|];
          assert w[0] != pat[0];
        } else if last < |a| + |sep| {
          assert w[|pat| - 1] == sep[last - |a|];
          assert w[|pat| - 1] != pat[|pat| - 1];
        } else {
          var j := |a| - i;
          forall k | 0 <= k < |sep| ensures w[j..j + |sep|][k] == sep[k] {
            assert w[j + k] == t[|a| + k];
          }
          assert w[j..j + |sep|] == sep;
          assert !OccursAt(pat, sep, j);
        }
      }
    }
  }

  /** Joining pattern-free pieces with a separator the pattern is unlinked from yields pattern-free text. */
  lemma {:induction false} JoinFree(pieces: seq<string>, sep: string, pat: string)
    requires forall k :: 0 <= k < |pieces| ==> Free(pieces[k], pat)
    requires Unlinked(pat, sep)
    ensures Free(Join(pieces, sep), pat)
  {
    if |pieces| == 0 {
      assert Join(pieces, sep) == [];
    } else if |pieces| > 1 {
      JoinFree(pieces[1..], sep, pat);
      ConcatFree(pieces[0], sep, Join(pieces[1..], sep), pat);
    }
  }

  /** `s.startsWith(p)`. */
  predicate StartsWith(s: string, p: string) {
    |p| <= |s| && s[..|p|] == p
  }

  /**
   The characters `String.prototype.trim` removes: the ECMAScript WhiteSpace
   and LineTerminator characters.
   */
  predicate IsJsSpace(c: char) {
    || '\t' <= c <= '\r'
    || c == ' ' || c == '\U{00A0}' || c == '\U{1680}'
    || '\U{2000}' <= c <= '\U{200A}'
    || c == '\U{2028}' || c == '\U{2029}' || c == '\U{202F}' || c == '\U{205F}'
    || c == '\U{3000}' || c == '\U{FEFF}'
  }

  ghost predicate AllSpace(s: string) {
    forall k :: 0 <= k < |s| ==> IsJsSpace(s[k])
  }

  /** `s.trimStart()`. */
  function TrimStart(s: string): string
    decreases |s|
  {
    if |s| > 0 && IsJsSpace(s[0]) then TrimStart(s[1..]) else s
  }

  /** `trimStart` drops the leading white space and nothing else. */
  lemma {:induction false} TrimStartDrops(s: string)
    decreases |s|
    ensures |TrimStart(s)| <= |s| && TrimStart(s) == s[|s| - |TrimStart(s)|..]
    ensures AllSpace(s[..|s| - |TrimStart(s)|])
    ensures TrimStart(s) == [] || !IsJsSpace(TrimStart(s)[0])
  {
    if |s| > 0 && IsJsSpace(s[0]) {
      TrimStartDrops(s[1..]);
      TrimStartStep(s, TrimStart(s[1..]));
    }
  }

  /** `s.trimEnd()`. */
  function TrimEnd(s: string): string
    decreases |s|
  {
    if |s| > 0 && IsJsSpace(s[|s| - 1]) then TrimEnd(s[..|s| - 1]) else s
  }

  /** `trimEnd` drops the trailing white space and nothing else. */
  lemma {:induction false} TrimEndDrops(s: string)
    decreases |s|
    ensures |TrimEnd(s)| <= |s| && TrimEnd(s) == s[..|TrimEnd(s)|]
    ensures AllSpace(s[|TrimEnd(s)|..])
    ensures TrimEnd(s) == [] || !IsJsSpace(TrimEnd(s)[|TrimEnd(s)| - 1])
  {
    if |s| > 0 && IsJsSpace(s[|s| - 1]) {
      TrimEndDrops(s[..|s| - 1]);
      TrimEndStep(s, TrimEnd(s[..|s| - 1]));
    }
  }

  /** `r` is the part of `s` starting at `a` that only white space surrounds. */
  ghost predicate TrimmedAt(s: string, r: string, a: int) {
    0 <= a <= |s| - |r| && r == s[a..a + |r|] && AllSpace(s[..a]) && AllSpace(s[a + |r|..])
  }

  /** One leading space more in front of a trimmed suffix. */
  lemma TrimStartStep(s: string, r: string)
    requires |s| > 0 && IsJsSpace(s[0])
    requires |r| <= |s| - 1 && r == s[1..][|s| - 1 - |r|..] && AllSpace(s[1..][..|s| - 1 - |r|])
    ensures r == s[|s| - |r|..] && AllSpace(s[..|s| - |r|])
  {
    assert s[..|s| - |r|] == [s[0]] + s[1..][..|s| - 1 - |r|];
  }

  /** One trailing space more behind a trimmed prefix. */
  lemma TrimEndStep(s: string, r: string)
    requires |s| > 0 && IsJsSpace(s[|s| - 1])
    requires |r| <= |s| - 1 && r == s[..|s| - 1][..|r|] && AllSpace(s[..|s| - 1][|r|..])
    ensures r == s[..|r|] && AllSpace(s[|r|..])
  {
    assert s[|r|..] == s[..|s| - 1][|r|..] + [s[|s| - 1]];
  }

  /** `s.trim()`: the text between the leading and the trailing white space. */
  function Trim(s: string): (r: string)
    ensures r == [] || (!IsJsSpace(r[0]) && !IsJsSpace(r[|r| - 1]))
    ensures exists a :: TrimmedAt(s, r, a)
  {
    var u := TrimStart(s);
    var r := TrimEnd(u);
    TrimStartDrops(s);
    TrimEndDrops(u);
    TrimBothEnds(s, u, r);
    r
  }

  /** The leading white space cut off `s`, then the trailing white space cut off what is left. */
  lemma TrimBothEnds(s: string, u: string, r: string)
    requires |u| <= |s| && u == s[|s| - |u|..] && AllSpace(s[..|s| - |u|])
    requires u == [] || !IsJsSpace(u[0])
    requires |r| <= |u| && r == u[..|r|] && AllSpace(u[|r|..])
    requires r == [] || !IsJsSpace(r[|r| - 1])
    ensures r == [] || (!IsJsSpace(r[0]) && !IsJsSpace(r[|r| - 1]))
    ensures exists a :: TrimmedAt(s, r, a)
  {
    var a := |s| - |u|;
    assert r == s[a..a + |r|];
    assert s[a + |r|..] == u[|r|..];
    assert TrimmedAt(s, r, a);
    if r != [] {
      assert r[0] == u[0];
    }
  }

  /** Trimming text that already has no white space at its ends, followed by white space, gives back that text. */
  lemma TrimPadded(s: string, tail: string)
    requires s == [] || (!IsJsSpace(s[0]) && !IsJsSpace(s[|s| - 1]))
    requires AllSpace(tail)
    ensures Trim(s + tail) == s
  {
    if s == [] {
      assert s + tail == tail;
      TrimStartAllSpace(tail);
    } else {
      assert TrimStart(s + tail) == s + tail;
      TrimEndPadded(s, tail);
    }
  }

  lemma {:induction false} TrimStartAllSpace(s: string)
    requires AllSpace(s)
    decreases |s|
    ensures TrimStart(s) == []
  {
    if |s| > 0 {
      TrimStartAllSpace(s[1..]);
    }
  }

  lemma {:induction false} TrimEndPadded(s: string, tail: string)
    requires |s| > 0 && !IsJsSpace(s[|s| - 1])
    requires AllSpace(tail)
    decreases |tail|
    ensures TrimEnd(s + tail) == s
  {
    if |tail| > 0 {
      var t := s + tail;
      assert t[..|t| - 1] == s + tail[..|tail| - 1];
      TrimEndPadded(s, tail[..|tail| - 1]);
    }
  }
}
