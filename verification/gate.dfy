/**
 The release gate (index.js:46-52): the version is already released when the
 remote tag listing matches `new RegExp('\\D' + escaped + '$', 'm')`, where
 `escaped` is the version with every `.` written as `\.`.
 */
module Gate {
  import opened Wrappers
  import opened Text
  import opened LineRegex
  import opened Compose

  /** What `semver.clean` leaves in a version: digits, letters, dots and hyphens. */
  predicate IsVersionChar(c: char) {
    '0' <= c <= '9' || 'a' <= c <= 'z' || 'A' <= c <= 'Z' || c == '.' || c == '-'
  }

  predicate IsCleanVersion(v: string) {
    forall k :: 0 <= k < |v| ==> IsVersionChar(v[k])
  }

  /** `version.replace(/\./g, '\\.')`. */
  function EscapeDots(v: string): string
    decreases |v|
  {
    if v == [] then []
    else (if v[0] == '.' then "\\." else [v[0]]) + EscapeDots(v[1..])
  }

  /** A version without dots is left as it is, and every dot of the result is escaped by a backslash. */
  lemma {:induction false} EscapedDots(v: string)
    decreases |v|
    ensures '.' !in v ==> EscapeDots(v) == v
    ensures forall k :: 0 <= k < |EscapeDots(v)| && EscapeDots(v)[k] == '.' ==> 0 < k && EscapeDots(v)[k - 1] == '\\'
  {
    if v != [] {
      EscapedDots(v[1..]);
      var head := if v[0] == '.' then "\\." else [v[0]];
      var tail := EscapeDots(v[1..]);
      assert EscapeDots(v) == head + tail;
      if '.' !in v {
        assert '.' !in v[1..];
      }
      forall k | 0 <= k < |head + tail| && (head + tail)[k] == '.'
        ensures 0 < k && (head + tail)[k - 1] == '\\'
      {
        if k >= |head| {
          assert (head + tail)[k] == tail[k - |head|];
          if k - |head| > 0 {
            assert (head + tail)[k - 1] == tail[k - |head| - 1];
          }
        }
      }
    }
  }

  /** Escaping the dots makes the pattern match the version literally. */
  lemma {:induction false} EscapedVersionIsLiteral(v: string)
    requires IsCleanVersion(v)
    decreases |v|
    ensures Compile(EscapeDots(v)) == Some(Literal(v))
  {
    if v != [] {
      var head := if v[0] == '.' then "\\." else [v[0]];
      assert EscapeDots(v) == head + EscapeDots(v[1..]);
      assert head[0] == '\\' ==> head[1] == '.' && head[2..] == [];
      assert head[0] != '\\' ==> head == [v[0]] && head[1..] == [] && !IsSyntaxChar(v[0]);
      assert Compile([]) == Some([]);
      assert [Lit(v[0])] + [] == [Lit(v[0])];
      assert Compile(head) == Some([Lit(v[0])]);
      CompileAppend(head, EscapeDots(v[1..]));
      EscapedVersionIsLiteral(v[1..]);
      assert Literal(v) == [Lit(v[0])] + Literal(v[1..]);
    }
  }

  /** The regular expression body the gate builds. */
  function GateBody(v: string): string {
    "\\D" + EscapeDots(v)
  }

  /**
   The listing shows `v` released at `i`: a non-digit at `i` (possibly the end
   of the line above), then the version, then the end of a line.
   */
  ghost predicate ReleasedAt(tags: string, v: string, i: int) {
    && 0 <= i < |tags|
    && !IsDigit(tags[i])
    && OccursAt(tags, v, i + 1)
    && AtLineEnd(tags, i + 1 + |v|)
  }

  lemma GatePattern(v: string)
    requires IsCleanVersion(v)
    ensures Compile(GateBody(v)) == Some([NonDigit] + Literal(v))
  {
    var d := "\\D";
    assert d[0] == '\\' && d[1] == 'D' && d[2..] == [];
    assert Compile(d[2..]) == Some([]);
    assert [NonDigit] + [] == [NonDigit];
    assert Compile(d) == Some([NonDigit]);
    CompileAppend("\\D", EscapeDots(v));
    EscapedVersionIsLiteral(v);
  }

  lemma GateMatchAt(tags: string, v: string, i: int)
    ensures MatchAt([NonDigit] + Literal(v), tags, i) <==> ReleasedAt(tags, v, i)
  {
    ConsMatchAt(NonDigit, Literal(v), tags, i);
    LiteralMatchAt(v, tags, i + 1);
  }

  /** `checkVersionIsTagged`: true iff the listing shows the version released somewhere. */
  function CheckVersionIsTagged(tags: string, version: string): (tagged: bool)
    requires IsCleanVersion(version)
    ensures tagged <==> exists i :: ReleasedAt(tags, version, i)
  {
    GatePattern(version);
    var p := Compile(GateBody(version)).value;
    assert forall i :: MatchAt(p, tags, i) <==> ReleasedAt(tags, version, i) by {
      forall i ensures MatchAt(p, tags, i) <==> ReleasedAt(tags, version, i) {
        GateMatchAt(tags, version, i);
      }
    }
    Test(p, tags)
  }

  /**
   The tag a release creates is recognised: once the listing has a line ending
   in `TagName(version)`, the gate reports the version as released, because
   the `v` in front of it is not a digit.
   */
  lemma CreatedTagIsRecognised(pre: string, version: string, post: string)
    requires IsCleanVersion(version)
    requires post == [] || IsLineTerminator(post[0])
    ensures CheckVersionIsTagged(pre + TagName(version) + post, version)
  {
    var tags := pre + TagName(version) + post;
    var i := |pre|;
    assert tags[i] == 'v';
    assert tags[i + 1..i + 1 + |version|] == version;
    assert tags[i + 1 + |version|..] == post;
    assert ReleasedAt(tags, version, i);
  }

  /** A version preceded by a digit is not a match: `2.3` is not released by a tag `v12.3`. */
  lemma LongerVersionDoesNotMatch()
    ensures !CheckVersionIsTagged("v12.3", "2.3")
  {
    var tags := "v12.3";
    forall i
      ensures !ReleasedAt(tags, "2.3", i)
    {
      if i == 0 {
        assert tags[1..4][0] == '1';
      } else if i == 1 {
        assert IsDigit(tags[1]);
      }
    }
  }

  /** The dots are literal: `1x2x3` does not release `1.2.3`. */
  lemma DotsAreLiteral()
    ensures !CheckVersionIsTagged("v1x2x3", "1.2.3")
  {
    var tags := "v1x2x3";
    var v := "1.2.3";
    assert IsCleanVersion(v);
    assert forall i :: !ReleasedAt(tags, v, i) by {
      forall i
        ensures !ReleasedAt(tags, v, i)
      {
        if i == 0 {
          assert tags[1..6][1] == 'x';
          assert tags[1..6] != v;
        } else if i > 0 {
          assert i + 1 + |v| > |tags|;
        }
      }
    }
  }
}
