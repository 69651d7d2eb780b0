/**
 * The content sanitiser of the message validator: a global, case-insensitive
 * removal of `<script ...> ... </script>` elements followed by `String.prototype.trim`.
 *
 * The regular expression `/<script[^>]*>.*?<\/script>/gi` is written out as
 * functions. `[^>]*>` can only stop at the first `>` after `<script`; the lazy
 * `.*?` stops at the first `</script>` reached without crossing a line terminator
 * (the pattern has no `s` flag); `/i` without `/u` folds only ASCII letters.
 */
module Sanitizer {
  import opened Wrappers

  const OpenTag := "<script"
  const CloseTag := "</script>"

  /** Case folding of the `i` flag for the letters that occur in the pattern. */
  function Fold(c: char): char
  {
    if 'A' <= c <= 'Z' then (c as int + 32) as char else c
  }

  /** `s` begins with the lower-case pattern `pat`, ignoring ASCII case. */
  predicate StartsFolded(s: string, pat: string)
  {
    |pat| <= |s| && forall k :: 0 <= k < |pat| ==> Fold(s[k]) == pat[k]
  }

  /** The characters that `.` does not match. */
  predicate IsLineTerminator(c: char)
  {
    c == '\n' || c == '\r' || c == '\U{2028}' || c == '\U{2029}'
  }

  /** Index of the first `>` in `s` at or after `i`. */
  function FirstCloseAngle(s: string, i: nat): (r: Option<nat>)
    ensures r.Some? ==> i <= r.value < |s| && s[r.value] == '>'
    decreases |s| - i
  {
    if i >= |s| then None
    else if s[i] == '>' then Some(i)
    else FirstCloseAngle(s, i + 1)
  }

  /** No `>` comes between `i` and the one FirstCloseAngle finds, and none at
      all after `i` when it finds nothing: `[^>]*` cannot stop anywhere else. */
  lemma {:induction false} FirstCloseAngleIsFirst(s: string, i: nat)
    ensures FirstCloseAngle(s, i).Some? ==>
              forall k :: i <= k < FirstCloseAngle(s, i).value ==> s[k] != '>'
    ensures FirstCloseAngle(s, i).None? ==> forall k :: i <= k < |s| ==> s[k] != '>'
    decreases |s| - i
  {
    if i < |s| && s[i] != '>' {
      FirstCloseAngleIsFirst(s, i + 1);
    }
  }

  /** `.*?<\/script>` tried from position `i`: the end of the first `</script>`
      that is reached without crossing a line terminator. */
  function LazyClose(s: string, i: nat): (r: Option<nat>)
    ensures r.Some? ==> i < r.value <= |s|
    decreases |s| - i
  {
    if i > |s| then None
    else if StartsFolded(s[i..], CloseTag) then Some(i + |CloseTag|)
    else if i == |s| || IsLineTerminator(s[i]) then None
    else LazyClose(s, i + 1)
  }

  /** Length of the match of the pattern at the start of `s`, if there is one. */
  function MatchScript(s: string): (r: Option<nat>)
    ensures r.Some? ==> StartsFolded(s, OpenTag) && 0 < r.value <= |s|
  {
    if !StartsFolded(s, OpenTag) then None
    else match FirstCloseAngle(s, |OpenTag|)
      case None => None
      case Some(j) => LazyClose(s, j + 1)
  }

  /** `s.replace(/<script[^>]*>.*?<\/script>/gi, '')`: scan left to right,
      drop every match and resume after it. It only ever removes characters. */
  function StripScripts(s: string): (r: string)
    ensures |r| <= |s|
    decreases |s|
  {
    if s == [] then []
    else match MatchScript(s)
      case Some(n) => StripScripts(s[n..])
      case None => [s[0]] + StripScripts(s[1..])
  }

  /** WhiteSpace and LineTerminator code points removed by `trim`. */
  predicate IsJsWhitespace(c: char)
  {
    || c == '\t' || c == '\n' || c == '\U{000B}' || c == '\U{000C}' || c == '\r'
    || c == ' ' || c == '\U{00A0}' || c == '\U{1680}' || ('\U{2000}' <= c <= '\U{200A}')
    || c == '\U{2028}' || c == '\U{2029}' || c == '\U{202F}' || c == '\U{205F}'
    || c == '\U{3000}' || c == '\U{FEFF}'
  }

  function TrimStart(s: string): (r: string)
    ensures |r| <= |s|
  {
    if s != [] && IsJsWhitespace(s[0]) then TrimStart(s[1..]) else s
  }

  function TrimEnd(s: string): (r: string)
    ensures |r| <= |s|
  {
    if s != [] && IsJsWhitespace(s[|s| - 1]) then TrimEnd(s[..|s| - 1]) else s
  }

  /** TrimStart drops a prefix of whitespace and stops at the first other
      character. */
  lemma {:induction false} TrimStartDropsWhitespace(s: string)
    ensures var r := TrimStart(s);
      && r == s[|s| - |r|..]
      && (forall k :: 0 <= k < |s| - |r| ==> IsJsWhitespace(s[k]))
      && (r != [] ==> !IsJsWhitespace(r[0]))
    decreases |s|
  {
    if s != [] && IsJsWhitespace(s[0]) {
      TrimStartDropsWhitespace(s[1..]);
    }
  }

  /** TrimEnd drops a suffix of whitespace and stops at the last other
      character. */
  lemma {:induction false} TrimEndDropsWhitespace(s: string)
    ensures var r := TrimEnd(s);
      && r == s[..|r|]
      && (forall k :: |r| <= k < |s| ==> IsJsWhitespace(s[k]))
      && (r != [] ==> !IsJsWhitespace(r[|r| - 1]))
    decreases |s|
  {
    if s != [] && IsJsWhitespace(s[|s| - 1]) {
      TrimEndDropsWhitespace(s[..|s| - 1]);
    }
  }

  /** `s.trim()`. */
  function Trim(s: string): (r: string)
    ensures |r| <= |s|
  {
    TrimEnd(TrimStart(s))
  }

  /** What `trim` promises: the result is an infix of `s` that neither starts
      nor ends with whitespace, and it is empty exactly when `s` is all
      whitespace. */
  lemma TrimIsInfix(s: string)
    ensures var r := Trim(s); var i := |s| - |TrimStart(s)|;
      && 0 <= i <= i + |r| <= |s| && r == s[i..i + |r|]
      && (r != [] ==> !IsJsWhitespace(r[0]) && !IsJsWhitespace(r[|r| - 1]))
      && (r == [] <==> forall k :: 0 <= k < |s| ==> IsJsWhitespace(s[k]))
  {
    var t := TrimStart(s);
    var r := TrimEnd(t);
    TrimStartDropsWhitespace(s);
    TrimEndDropsWhitespace(t);
    var i := |s| - |t|;
    assert r == s[i..i + |r|];
    if r != [] {
      assert t[0] == r[0] && s[i] == t[0];
    }
  }

  /** The sanitised form of a message's content. */
  function Sanitize(s: string): (r: string)
    ensures |r| <= |s|
  {
    Trim(StripScripts(s))
  }

  /** Text without any `<` passes the script filter untouched. */
  lemma {:induction false} StripScriptsKeepsPlainText(s: string)
    requires forall k :: 0 <= k < |s| ==> s[k] != '<'
    ensures StripScripts(s) == s
    decreases |s|
  {
    if s != [] {
      assert Fold(s[0]) != '<';
      assert MatchScript(s).None?;
      StripScriptsKeepsPlainText(s[1..]);
    }
  }

  /** Plain text with no surrounding whitespace is its own sanitised form. */
  lemma SanitizeKeepsPlainText(s: string)
    requires forall k :: 0 <= k < |s| ==> s[k] != '<'
    requires s != [] ==> !IsJsWhitespace(s[0]) && !IsJsWhitespace(s[|s| - 1])
    ensures Sanitize(s) == s
  {
    StripScriptsKeepsPlainText(s);
  }

  /** A string that begins with a lower-case pattern verbatim also begins with
      it ignoring case. */
  lemma LiteralStartsFolded(s: string, pat: string)
    requires |pat| <= |s| && s[..|pat|] == pat
    requires forall k :: 0 <= k < |pat| ==> !('A' <= pat[k] <= 'Z')
    ensures StartsFolded(s, pat)
  {
    forall k | 0 <= k < |pat| ensures Fold(s[k]) == pat[k] {
      assert s[k] == s[..|pat|][k];
    }
  }

  /** The pattern matches the whole script element at the front of the example. */
  lemma MatchesScriptElement(s: string)
    requires s == "<SCRIPT>x</script> hi"
    ensures MatchScript(s) == Some(18)
  {
    assert StartsFolded(s, OpenTag);
    assert FirstCloseAngle(s, 7) == Some(7);
    assert s[8] == 'x' && Fold(s[8]) == 'x';
    assert s[9..][..9] == CloseTag;
    LiteralStartsFolded(s[9..], CloseTag);
    assert LazyClose(s, 8) == Some(18);
  }

  /** A complete script element is removed, whatever the case of its tag
      name, and the text after it kept. */
  lemma StripsScriptElement()
    ensures Sanitize("<SCRIPT>x</script> hi") == "hi"
  {
    var s := "<SCRIPT>x</script> hi";
    var rest := " hi";
    MatchesScriptElement(s);
    assert s[18..] == rest;
    StripScriptsKeepsPlainText(rest);
    assert StripScripts(s) == rest;
    TrimsLeadingSpace(rest);
  }

  lemma TrimsLeadingSpace(s: string)
    requires s == " hi"
    ensures Trim(s) == "hi"
  {
    assert IsJsWhitespace(s[0]);
    assert s[1..] == "hi";
    assert !IsJsWhitespace('h') && !IsJsWhitespace('i');
    assert TrimStart("hi") == "hi";
    assert TrimEnd("hi") == "hi";
  }
}
