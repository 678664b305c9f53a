/** Stripping, for bytes and for strings, and the characters that Python counts as space. */
module Texts {

  predicate AllOf<T>(space: T -> bool, s: seq<T>) {
    forall i :: 0 <= i < |s| ==> space(s[i])
  }

  /** `s.strip()`, where `space` says what goes. */
  function Strip<T>(space: T -> bool, s: seq<T>): seq<T> {
    if s == [] then []
    else if space(s[0]) then Strip(space, s[1..])
    else if space(s[|s| - 1]) then Strip(space, s[..|s| - 1])
    else s
  }

  /** Stripping removes all surrounding space and nothing but it. */
  lemma {:induction false} StripExact<T>(space: T -> bool, s: seq<T>) returns (before: seq<T>, after: seq<T>)
    ensures s == before + Strip(space, s) + after && AllOf(space, before) && AllOf(space, after)
    ensures Strip(space, s) != [] ==> !space(Strip(space, s)[0]) && !space(Strip(space, s)[|Strip(space, s)| - 1])
  {
    before, after := [], [];
    if s == [] {
    } else if space(s[0]) {
      before, after := StripExact(space, s[1..]);
      before := [s[0]] + before;
    } else if space(s[|s| - 1]) {
      var front := s[..|s| - 1];
      before, after := StripExact(space, front);
      assert s == front + [s[|s| - 1]];
      after := after + [s[|s| - 1]];
    }
  }

  lemma {:induction false} StripFront<T>(space: T -> bool, before: seq<T>, s: seq<T>)
    requires AllOf(space, before)
    ensures Strip(space, before + s) == Strip(space, s)
  {
    if before == [] {
      assert before + s == s;
    } else {
      StripFront(space, before[1..], s);
      assert (before + s)[1..] == before[1..] + s;
    }
  }

  lemma {:induction false} StripBack<T>(space: T -> bool, s: seq<T>, after: seq<T>)
    requires AllOf(space, after) && s != [] && !space(s[0])
    ensures Strip(space, s + after) == Strip(space, s)
  {
    if after == [] {
      assert s + after == s;
    } else {
      var n := |after| - 1;
      StripBack(space, s, after[..n]);
      assert (s + after)[..|s + after| - 1] == s + after[..n];
    }
  }

  /** What does not begin or end with space survives whatever space is put around it. */
  lemma StripSurrounded<T>(space: T -> bool, before: seq<T>, s: seq<T>, after: seq<T>)
    requires AllOf(space, before) && AllOf(space, after) && s != [] && !space(s[0]) && !space(s[|s| - 1])
    ensures Strip(space, before + s + after) == s
  {
    assert before + s + after == before + (s + after);
    StripFront(space, before, s + after);
    StripBack(space, s, after);
  }

  /** The separators of `str.splitlines`. */
  predicate IsBreak(c: char) {
    || '\n' <= c <= '\r' || '\U{1c}' <= c <= '\U{1e}' || c == '\U{85}' || c == '\U{2028}' || c == '\U{2029}'
  }

  /** The characters that `str.strip` removes and `int` skips. */
  predicate IsSpace(c: char) {
    || IsBreak(c) || c == '\t' || c == ' ' || c == '\U{1f}' || c == '\U{a0}' || c == '\U{1680}'
    || '\U{2000}' <= c <= '\U{200a}' || c == '\U{202f}' || c == '\U{205f}' || c == '\U{3000}'
  }
}
