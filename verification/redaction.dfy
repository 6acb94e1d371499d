/**
 Keeping the GitHub token out of what the script prints. `fail`
 (index.js:158-164) rewrites the whole error message with a global regular
 expression built from the token; the push log line (index.js:131) uses
 `String.prototype.replace` with the token as a string pattern, which rewrites
 only the first occurrence (see `Publish.PushLogLine`).
 */
module Redaction {
  import opened Wrappers
  import opened Text
  import opened LineRegex
  import opened Settings

  const Placeholder := "xxGH_TOKENxx"

  /**
   The token reaches `new RegExp(GH_TOKEN, 'g')` unescaped; the model covers
   tokens that read as plain text there (GitHub tokens are letters, digits and
   underscores).
   */
  predicate IsLiteralToken(token: Option<string>) {
    token.None? || HasNoSyntaxChar(token.value)
  }

  /** The message `fail` prints. */
  function Redact(token: Option<string>, message: string): (r: string)
    requires IsLiteralToken(token)
    ensures !HasToken(token) ==> r == message
    ensures HasToken(token) ==> r == Join(Split(message, token.value), Placeholder)
    ensures HasToken(token) ==>
      exists pieces :: Join(pieces, token.value) == message && Join(pieces, Placeholder) == r &&
        forall k :: 0 <= k < |pieces| ==> Free(pieces[k], token.value)
    ensures HasToken(token) ==>
      forall i :: FirstAt(message, token.value, i) ==> r[..i] == message[..i] && OccursAt(r, Placeholder, i)
  {
    if HasToken(token) then
      var t := token.value;
      ReplaceAllIsJoin(message, t, Placeholder);
      JoinSplit(message, t);
      SplitPieces(message, t);
      assert Join(Split(message, t), t) == message;
      var r := ReplaceAll(message, t, Placeholder);
      assert forall i :: FirstAt(message, t, i) ==> r[..i] == message[..i] && OccursAt(r, Placeholder, i) by {
        forall i | FirstAt(message, t, i)
          ensures r[..i] == message[..i] && OccursAt(r, Placeholder, i)
        {
          var k := IndexOf(message, t).value;
          FirstAtUnique(message, t, i, k);
          ReplaceAllStep(message, t, Placeholder, i);
          var tail := ReplaceAll(message[i + |t|..], t, Placeholder);
          assert r == message[..i] + Placeholder + tail;
          assert r[i..i + |Placeholder|] == Placeholder;
        }
      }
      r
    else message
  }

  /**
   When the token begins and ends with characters that are not in the
   placeholder, and does not contain the placeholder, the printed message
   contains no occurrence of the token at all. A GitHub token such as
   `ghp_...` begins with `g`, so only its last character matters.
   */
  lemma RedactedMessageHasNoToken(token: Option<string>, message: string)
    requires IsLiteralToken(token) && HasToken(token)
    requires Unlinked(token.value, Placeholder)
    ensures Free(Redact(token, message), token.value)
  {
    SplitPieces(message, token.value);
    JoinFree(Split(message, token.value), Placeholder, token.value);
  }

  /** An ASCII letter or digit, the characters of a GitHub token after its prefix. */
  predicate IsAlnum(c: char) {
    ('a' <= c <= 'z') || ('A' <= c <= 'Z') || ('0' <= c <= '9')
  }

  /**
   A GitHub personal access token, `ghp_` followed by letters and digits, is
   literal and meets that condition whenever its last character is not one of
   the placeholder's: the placeholder's `_` could only line up with the
   token's own `_`, which would put the placeholder before the token's start.
   */
  lemma PersonalAccessTokenUnlinked(s: string)
    requires |s| > 0 && forall k :: 0 <= k < |s| ==> IsAlnum(s[k])
    requires s[|s| - 1] !in Placeholder
    ensures IsLiteralToken(Some("ghp_" + s))
    ensures Unlinked("ghp_" + s, Placeholder)
  {
    var t := "ghp_" + s;
    forall k | 0 <= k < |t| ensures !IsSyntaxChar(t[k]) {
      if k >= 4 {
        assert t[k] == s[k - 4];
      }
    }
    forall j ensures !OccursAt(t, Placeholder, j) {
      if 0 <= j && j + |Placeholder| <= |t| {
        assert t[j + 4] == s[j] && IsAlnum(s[j]);
        assert t[j..j + |Placeholder|][4] != Placeholder[4];
      }
    }
  }

  /**
   Without that condition the placeholder can complete a token: with the token
   `xxx`, the message `xxxx` prints as `xxGH_TOKENxxx`, which ends in `xxx`.
   */
  lemma RedactionCanRebuildToken(t: string, m: string)
    requires t == "xxx" && m == "xxxx"
    ensures IsLiteralToken(Some(t))
    ensures Redact(Some(t), m) == "xxGH_TOKENxxx"
    ensures OccursAt(Redact(Some(t), m), t, 10)
  {
    assert !IsSyntaxChar('x');
    assert m[0..3] == t;
    assert FirstAt(m, t, 0);
    assert IndexOf(m, t) == Some(0);
    var rest := m[3..];
    assert rest == "x";
    assert Free(rest, t);
    assert IndexOf(rest, t) == None;
    assert ReplaceAll(rest, t, Placeholder) == rest;
    ReplaceAllStep(m, t, Placeholder, 0);
    assert ReplaceAll(m, t, Placeholder) == [] + Placeholder + rest;
    var r := Placeholder + rest;
    assert r == "xxGH_TOKENxxx";
    assert r[10..13] == t;
  }
}
