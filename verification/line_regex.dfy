/**
 The fragment of JavaScript regular expressions the release script builds:
 `new RegExp(body + '$', 'm')` where `body` is made of literal characters, the
 class escape `\D`, identity escapes of syntax characters and `/`, and the
 unescaped `.`. With the `m` flag the trailing `$` matches at the end of the
 text or just before a line terminator, so `test` asks whether some line of
 the text ends with a match of `body` — except that `\D` and `.` are checked
 against the flat text, so `\D` may consume the line terminator of the line
 above.
 */
module LineRegex {
  import opened Wrappers

  /** One compiled position of a pattern. */
  datatype Atom =
    | NonDigit      // `\D`: any character but 0-9, line terminators included
    | Lit(c: char)  // a literal character, or an escaped syntax character
    | Wild          // `.`: any character but a line terminator

  predicate IsDigit(c: char) {
    '0' <= c <= '9'
  }

  /** The ECMAScript LineTerminator characters. */
  predicate IsLineTerminator(c: char) {
    c == '\n' || c == '\r' || c == '\U{2028}' || c == '\U{2029}'
  }

  /** The ECMAScript SyntaxCharacter set: these have a meaning of their own in a pattern. */
  predicate IsSyntaxChar(c: char) {
    c in "^$\\.*+?()[]{}|"
  }

  predicate HasNoSyntaxChar(s: string) {
    forall k :: 0 <= k < |s| ==> !IsSyntaxChar(s[k])
  }

  predicate AtomMatches(a: Atom, c: char) {
    match a
    case NonDigit => !IsDigit(c)
    case Lit(x) => c == x
    case Wild => !IsLineTerminator(c)
  }

  /** The pattern that matches exactly the characters of `s`. */
  function Literal(s: string): (p: seq<Atom>)
    ensures |p| == |s|
    ensures forall k :: 0 <= k < |s| ==> p[k] == Lit(s[k])
  {
    seq(|s|, k requires 0 <= k < |s| => Lit(s[k]))
  }

  function Prepend(a: Atom, p: Option<seq<Atom>>): Option<seq<Atom>> {
    match p
    case None => None
    case Some(q) => Some([a] + q)
  }

  function Concat(p: Option<seq<Atom>>, q: Option<seq<Atom>>): Option<seq<Atom>> {
    if p.Some? && q.Some? then Some(p.value + q.value) else None
  }

  /**
   Parses a pattern body. `None` stands for every construct outside the
   fragment (quantifiers, groups, classes, anchors, other escapes, a dangling
   backslash); the release script never needs them for the inputs modelled.
   */
  function Compile(src: string): (p: Option<seq<Atom>>)
    decreases |src|
  {
    if src == [] then Some([])
    else if src[0] == '\\' then
      if |src| == 1 then None
      else if src[1] == 'D' then Prepend(NonDigit, Compile(src[2..]))
      else if IsSyntaxChar(src[1]) || src[1] == '/' then Prepend(Lit(src[1]), Compile(src[2..]))
      else None
    else if src[0] == '.' then Prepend(Wild, Compile(src[1..]))
    else if IsSyntaxChar(src[0]) then None
    else Prepend(Lit(src[0]), Compile(src[1..]))
  }

  /** A body made of complete tokens compiles piecewise: compiling a concatenation concatenates. */
  lemma {:induction false} CompileAppend(a: string, b: string)
    requires Compile(a).Some?
    decreases |a|
    ensures Compile(a + b) == Concat(Compile(a), Compile(b))
  {
    if a == [] {
      assert a + b == b;
      if Compile(b).Some? {
        assert [] + Compile(b).value == Compile(b).value;
      }
    } else if a[0] == '\\' {
      var ab := a + b;
      assert |a| >= 2;
      assert ab[0] == a[0] && ab[1] == a[1] && ab[2..] == a[2..] + b;
      CompileAppend(a[2..], b);
      var x := if a[1] == 'D' then NonDigit else Lit(a[1]);
      assert Compile(a) == Prepend(x, Compile(a[2..]));
      assert Compile(ab) == Prepend(x, Compile(a[2..] + b));
      if Compile(b).Some? {
        var p, q := Compile(a[2..]).value, Compile(b).value;
        assert [x] + (p + q) == ([x] + p) + q;
      }
    } else {
      var ab := a + b;
      assert ab != [] && ab[0] == a[0] && ab[1..] == a[1..] + b;
      CompileAppend(a[1..], b);
      var x := if a[0] == '.' then Wild else Lit(a[0]);
      assert Compile(a) == Prepend(x, Compile(a[1..]));
      assert Compile(ab) == Prepend(x, Compile(a[1..] + b));
      if Compile(b).Some? {
        var p, q := Compile(a[1..]).value, Compile(b).value;
        assert [x] + (p + q) == ([x] + p) + q;
      }
    }
  }

  /** Text without syntax characters compiles to the literal pattern of itself. */
  lemma {:induction false} CompileLiteral(s: string)
    requires HasNoSyntaxChar(s)
    decreases |s|
    ensures Compile(s) == Some(Literal(s))
  {
    if s != [] {
      assert !IsSyntaxChar(s[0]);
      CompileLiteral(s[1..]);
      assert Literal(s) == [Lit(s[0])] + Literal(s[1..]);
    }
  }

  /**
   A pattern written without backslashes matches its own text: each literal
   matches itself and each `.` matches the dot.
   */
  lemma {:induction false} CompiledMatchesSource(s: string)
    requires Compile(s).Some? && '\\' !in s
    decreases |s|
    ensures |Compile(s).value| == |s|
    ensures forall k :: 0 <= k < |s| ==> AtomMatches(Compile(s).value[k], s[k])
  {
    if s != [] {
      assert '\\' !in s[1..];
      CompiledMatchesSource(s[1..]);
    }
  }

  /** `$` in multiline mode: the end of the text, or just before a line terminator. */
  predicate AtLineEnd(t: string, j: int)
    requires 0 <= j <= |t|
  {
    j == |t| || IsLineTerminator(t[j])
  }

  /** The pattern matches `t` at `i`, and the match ends where `$` can match. */
  predicate MatchAt(p: seq<Atom>, t: string, i: int) {
    && 0 <= i && i + |p| <= |t|
    && (forall k :: 0 <= k < |p| ==> AtomMatches(p[k], t[i + k]))
    && AtLineEnd(t, i + |p|)
  }

  /** The leftward scan `test` performs, from position `i` on. */
  function SearchFrom(p: seq<Atom>, t: string, i: nat): (found: bool)
    requires i <= |t|
    decreases |t| - i
    ensures found <==> exists j :: i <= j && MatchAt(p, t, j)
  {
    if MatchAt(p, t, i) then true
    else if i == |t| then false
    else SearchFrom(p, t, i + 1)
  }

  /** `new RegExp(body + '$', 'm').test(t)` for the compiled body `p`. */
  function Test(p: seq<Atom>, t: string): (found: bool)
    ensures found <==> exists j :: MatchAt(p, t, j)
  {
    SearchFrom(p, t, 0)
  }

  /** A literal pattern matches exactly where its text occurs and is followed by a line end. */
  lemma LiteralMatchAt(s: string, t: string, i: int)
    ensures MatchAt(Literal(s), t, i) <==>
      (0 <= i && i + |s| <= |t| && t[i..i + |s|] == s && AtLineEnd(t, i + |s|))
  {
    if 0 <= i && i + |s| <= |t| {
      if t[i..i + |s|] == s {
        forall k | 0 <= k < |s|
          ensures AtomMatches(Literal(s)[k], t[i + k])
        {
          assert t[i..i + |s|][k] == t[i + k];
        }
      }
      if forall k :: 0 <= k < |s| ==> AtomMatches(Literal(s)[k], t[i + k]) {
        forall k | 0 <= k < |s|
          ensures t[i..i + |s|][k] == s[k]
        {
          assert AtomMatches(Literal(s)[k], t[i + k]);
        }
        assert t[i..i + |s|] == s;
      }
    }
  }

  /** A pattern with a leading atom matches where that atom matches and the rest matches one position on. */
  lemma ConsMatchAt(a: Atom, p: seq<Atom>, t: string, i: int)
    ensures MatchAt([a] + p, t, i) <==>
      (0 <= i < |t| && AtomMatches(a, t[i]) && MatchAt(p, t, i + 1))
  {
    var q := [a] + p;
    if 0 <= i < |t| && AtomMatches(a, t[i]) && MatchAt(p, t, i + 1) {
      forall k | 0 <= k < |q|
        ensures AtomMatches(q[k], t[i + k])
      {
        if k > 0 {
          assert q[k] == p[k - 1];
          assert AtomMatches(p[k - 1], t[i + 1 + (k - 1)]);
        }
      }
    }
    if MatchAt(q, t, i) {
      forall k | 0 <= k < |p|
        ensures AtomMatches(p[k], t[i + 1 + k])
      {
        assert q[k + 1] == p[k];
        assert AtomMatches(q[k + 1], t[i + (k + 1)]);
      }
      assert AtomMatches(q[0], t[i + 0]);
    }
  }
}
