/**
 Whether the releases branch already exists on the remote (index.js:54-73):
 the heads listing is matched against `new RegExp('heads\\/' + branch + '$', 'm')`.
 The branch name goes into the pattern unescaped, so a `.` in it matches any
 character but a line terminator.
 */
module Sync {
  import opened Wrappers
  import opened Text
  import opened LineRegex

  /** The regular expression body the branch check builds. */
  function HeadsBody(branch: string): string {
    "heads\\/" + branch
  }

  /** A branch name whose pattern lies in the modelled regular-expression fragment. */
  predicate IsSupportedBranch(branch: string) {
    Compile(branch).Some?
  }

  lemma HeadsPattern(branch: string)
    requires IsSupportedBranch(branch)
    ensures Compile(HeadsBody(branch)) == Some(Literal("heads/") + Compile(branch).value)
  {
    var h, e := "heads", "\\/";
    assert HasNoSyntaxChar(h);
    CompileLiteral(h);
    assert e[0] == '\\' && e[1] == '/' && e[2..] == [];
    assert Compile(e[2..]) == Some([]);
    assert [Lit('/')] + [] == [Lit('/')];
    assert Compile(e) == Some([Lit('/')]);
    CompileAppend(h, e);
    assert Literal(h) + [Lit('/')] == Literal("heads/");
    assert h + e == "heads\\/";
    CompileAppend(h + e, branch);
  }

  /** The listing has `heads/` at `i` followed by a match of the branch pattern that ends a line. */
  ghost predicate BranchListedAt(heads: string, branch: string, i: int)
    requires IsSupportedBranch(branch)
  {
    OccursAt(heads, "heads/", i) && MatchAt(Compile(branch).value, heads, i + 6)
  }

  lemma HeadsMatchAt(heads: string, branch: string, i: int)
    requires IsSupportedBranch(branch)
    ensures MatchAt(Literal("heads/") + Compile(branch).value, heads, i) <==> BranchListedAt(heads, branch, i)
  {
    var l, b := Literal("heads/"), Compile(branch).value;
    var p := l + b;
    if MatchAt(p, heads, i) {
      forall k | 0 <= k < 6
        ensures heads[i..i + 6][k] == "heads/"[k]
      {
        assert p[k] == l[k];
        assert AtomMatches(p[k], heads[i + k]);
      }
      assert heads[i..i + 6] == "heads/";
      forall k | 0 <= k < |b|
        ensures AtomMatches(b[k], heads[i + 6 + k])
      {
        assert p[6 + k] == b[k];
        assert AtomMatches(p[6 + k], heads[i + (6 + k)]);
      }
    }
    if BranchListedAt(heads, branch, i) {
      forall k | 0 <= k < |p|
        ensures AtomMatches(p[k], heads[i + k])
      {
        if k < 6 {
          assert p[k] == Lit("heads/"[k]);
          assert heads[i..i + 6][k] == heads[i + k];
        } else {
          assert p[k] == b[k - 6];
          assert AtomMatches(b[k - 6], heads[i + 6 + (k - 6)]);
        }
      }
    }
  }

  /** The `re.test(branches)` of `checkoutAndPull`: the pull is issued exactly when this holds. */
  function RemoteBranchExists(heads: string, branch: string): (found: bool)
    requires IsSupportedBranch(branch)
    ensures found <==> exists i :: BranchListedAt(heads, branch, i)
  {
    HeadsPattern(branch);
    var p := Compile(HeadsBody(branch)).value;
    assert forall i :: MatchAt(p, heads, i) <==> BranchListedAt(heads, branch, i) by {
      forall i ensures MatchAt(p, heads, i) <==> BranchListedAt(heads, branch, i) {
        HeadsMatchAt(heads, branch, i);
      }
    }
    Test(p, heads)
  }

  /**
   For a name without regular-expression syntax the check is plain text: some
   line ends with `heads/` and the branch name.
   */
  lemma PlainBranchName(heads: string, branch: string)
    requires HasNoSyntaxChar(branch)
    ensures IsSupportedBranch(branch)
    ensures RemoteBranchExists(heads, branch) <==>
      exists i :: OccursAt(heads, "heads/" + branch, i) && AtLineEnd(heads, i + 6 + |branch|)
  {
    CompileLiteral(branch);
    forall i
      ensures BranchListedAt(heads, branch, i) <==>
        (OccursAt(heads, "heads/" + branch, i) && AtLineEnd(heads, i + 6 + |branch|))
    {
      LiteralMatchAt(branch, heads, i + 6);
      if 0 <= i && i + 6 + |branch| <= |heads| {
        var w := heads[i..i + 6 + |branch|];
        assert w[..6] == heads[i..i + 6];
        assert w[6..] == heads[i + 6..i + 6 + |branch|];
        assert w == "heads/" + branch <==> w[..6] == "heads/" && w[6..] == branch;
      }
    }
  }

  /**
   A branch that is on the remote is found: a listing line ending in
   `heads/<branch>` makes the check succeed. Git ref names never contain a
   backslash.
   */
  lemma ListedBranchIsFound(pre: string, branch: string, post: string)
    requires IsSupportedBranch(branch) && '\\' !in branch
    requires post == [] || IsLineTerminator(post[0])
    ensures RemoteBranchExists(pre + "heads/" + branch + post, branch)
  {
    var heads := pre + "heads/" + branch + post;
    var i := |pre|;
    var b := Compile(branch).value;
    CompiledMatchesSource(branch);
    assert heads[i..i + 6] == "heads/";
    forall k | 0 <= k < |b|
      ensures AtomMatches(b[k], heads[i + 6 + k])
    {
      assert heads[i + 6 + k] == branch[k];
    }
    assert heads[i + 6 + |branch|..] == post;
    assert BranchListedAt(heads, branch, i);
  }

  /** The dot of a branch name is a wildcard: `1.x` is taken to exist when only `1ax` does. */
  lemma DottedBranchMatchesOtherName()
    ensures IsSupportedBranch("1.x")
    ensures RemoteBranchExists("refs/heads/1ax", "1.x")
  {
    var b := "1.x";
    assert b[2..] == "x" && b[2..][1..] == [];
    assert Compile(b[2..][1..]) == Some([]);
    assert [Lit('x')] + [] == [Lit('x')];
    assert !IsSyntaxChar('x') && Compile(b[2..]) == Some([Lit('x')]);
    assert b[1..] == ".x" && b[1..][1..] == b[2..];
    assert [Wild] + [Lit('x')] == [Wild, Lit('x')];
    assert Compile(b[1..]) == Some([Wild, Lit('x')]);
    assert !IsSyntaxChar('1');
    assert [Lit('1')] + [Wild, Lit('x')] == [Lit('1'), Wild, Lit('x')];
    assert Compile(b) == Some([Lit('1'), Wild, Lit('x')]);
    var heads := "refs/heads/1ax";
    assert heads[5..11] == "heads/";
    assert BranchListedAt(heads, b, 5);
  }
}
