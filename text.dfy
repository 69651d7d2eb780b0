/**
 * String building used by the validators' error messages: decimal rendering of
 * a message index (template literals `${i}`) and `Array.prototype.join`.
 */
module Text {

  predicate IsDigit(c: char)
  {
    '0' as int <= c as int <= '9' as int
  }

  function DigitChar(d: nat): (c: char)
    requires d < 10
    ensures IsDigit(c) && c as int - '0' as int == d
  {
    "0123456789"[d]
  }

  /** Decimal rendering of a natural number, as `String(n)` gives it. */
  function NatToString(n: nat): (s: string)
    ensures |s| >= 1
    ensures forall k :: 0 <= k < |s| ==> IsDigit(s[k])
    ensures s[0] == '0' ==> n == 0 && s == "0"
    decreases n
  {
    if n < 10 then [DigitChar(n)] else NatToString(n / 10) + [DigitChar(n % 10)]
  }

  /** Reads back a string of decimal digits. */
  function ParseNat(s: string): nat
    requires forall k :: 0 <= k < |s| ==> IsDigit(s[k])
  {
    if s == [] then 0
    else
      assert IsDigit(s[|s| - 1]);
      ParseNat(s[..|s| - 1]) * 10 + (s[|s| - 1] as int - '0' as int)
  }

  /** The rendering loses nothing: the index named in a message can be read back. */
  lemma {:induction false} ParseNatToString(n: nat)
    ensures ParseNat(NatToString(n)) == n
    decreases n
  {
    if n >= 10 {
      var s := NatToString(n);
      assert s[..|s| - 1] == NatToString(n / 10);
      ParseNatToString(n / 10);
    }
  }

  /** `parts.join(sep)`. */
  function Join(parts: seq<string>, sep: string): (r: string)
    ensures parts == [] ==> r == ""
    ensures |parts| == 1 ==> r == parts[0]
  {
    if parts == [] then ""
    else if |parts| == 1 then parts[0]
    else parts[0] + sep + Join(parts[1..], sep)
  }

  /** The `n` characters of `whole` from position `i`. */
  function Window(whole: string, i: nat, n: nat): (w: string)
    requires i + n <= |whole|
    ensures |w| == n
  {
    whole[i..i + n]
  }

  /** `part` occurs in `whole` at some position. */
  predicate Occurs(part: string, whole: string)
  {
    exists i: nat :: i + |part| <= |whole| && Window(whole, i, |part|) == part
  }

  /** A text occurs at the front of anything it starts. */
  lemma OccursAtFront(part: string, rest: string)
    ensures Occurs(part, part + rest)
  {
    assert Window(part + rest, 0, |part|) == part;
  }

  /** What occurs in a text also occurs in that text with anything before it. */
  lemma OccursAfterPrefix(part: string, prefix: string, whole: string)
    requires Occurs(part, whole)
    ensures Occurs(part, prefix + whole)
  {
    var j: nat :| j + |part| <= |whole| && Window(whole, j, |part|) == part;
    assert Window(prefix + whole, |prefix| + j, |part|) == Window(whole, j, |part|);
  }

  /** Every part appears in the joined text. */
  lemma {:induction false} JoinHasEveryPart(parts: seq<string>, sep: string, k: nat)
    requires k < |parts|
    ensures Occurs(parts[k], Join(parts, sep))
    decreases |parts|
  {
    if |parts| == 1 {
      OccursAtFront(parts[0], []);
      assert parts[0] + [] == Join(parts, sep);
    } else if k == 0 {
      OccursAtFront(parts[0], sep + Join(parts[1..], sep));
      assert parts[0] + (sep + Join(parts[1..], sep)) == Join(parts, sep);
    } else {
      JoinHasEveryPart(parts[1..], sep, k - 1);
      assert parts[1..][k - 1] == parts[k];
      OccursAfterPrefix(parts[k], parts[0] + sep, Join(parts[1..], sep));
      assert (parts[0] + sep) + Join(parts[1..], sep) == Join(parts, sep);
    }
  }
}
