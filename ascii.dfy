/**
 * Letter case of text. Python's `str.lower()` follows Unicode rules; this model
 * lowers ASCII letters only. Every extension the upload filter accepts is made of
 * ASCII letters and digits, and no character outside ASCII lowers to one of
 * those letters or digits, so the difference never changes a verdict of the filter.
 */
module Ascii {

  predicate IsUpper(c: char) {
    'A' <= c <= 'Z'
  }

  /** ASCII lowercasing of one character; everything else is left unchanged. */
  function LowerChar(c: char): char {
    if IsUpper(c) then (c as int - 'A' as int + 'a' as int) as char else c
  }

  /** `s.lower()`, character by character. */
  function Lower(s: string): (r: string)
    ensures |r| == |s|
    ensures forall i :: 0 <= i < |s| ==> r[i] == LowerChar(s[i])
    ensures forall i :: 0 <= i < |r| ==> !IsUpper(r[i])
  {
    seq(|s|, i requires 0 <= i < |s| => LowerChar(s[i]))
  }

  /** Lowering never creates or removes a character that is not a letter, such as '.'. */
  lemma LowerCharKeeps(c: char, d: char)
    requires !IsUpper(d) && !('a' <= d <= 'z')
    ensures LowerChar(c) == d <==> c == d
  {
  }

  /** Lowering a slice is slicing the lowered text. */
  lemma LowerSlice(s: string, i: nat)
    requires i <= |s|
    ensures Lower(s[i..]) == Lower(s)[i..]
  {
    assert forall k :: 0 <= k < |s| - i ==> Lower(s[i..])[k] == Lower(s)[i..][k];
  }

  /** A character that is not a letter occurs in the lowered text exactly where it occurs in the text. */
  lemma LowerKeepsPunctuation(s: string, d: char)
    requires !IsUpper(d) && !('a' <= d <= 'z')
    ensures d in Lower(s) <==> d in s
  {
    if d in s {
      var i :| 0 <= i < |s| && s[i] == d;
      assert Lower(s)[i] == d;
    }
    if d in Lower(s) {
      var i :| 0 <= i < |s| && Lower(s)[i] == d;
      LowerCharKeeps(s[i], d);
    }
  }

  /** Lowering twice is lowering once. */
  lemma LowerIdempotent(s: string)
    ensures Lower(Lower(s)) == Lower(s)
  {
    assert forall i :: 0 <= i < |s| ==> Lower(Lower(s))[i] == Lower(s)[i];
  }
}
