/** Trimming ASCII whitespace, as TrimWhitespaceASCII and the splitting of
    lists do it. */
module Whitespace {

  /** Tab, line feed, vertical tab, form feed, carriage return, space. */
  predicate Space(c: char) {
    c == ' ' || '\t' <= c <= '\r'
  }

  predicate Trimmed(s: string) {
    s != "" ==> !Space(s[0]) && !Space(s[|s| - 1])
  }

  function Trim(s: string): (r: string)
    ensures Trimmed(r)
    ensures |r| <= |s|
    ensures Trimmed(s) <==> r == s
    decreases |s|
  {
    if s == "" then s
    else if Space(s[0]) then Trim(s[1..])
    else if Space(s[|s| - 1]) then Trim(s[..|s| - 1])
    else s
  }

  /** Only whitespace is cut off, at both ends. */
  lemma {:induction false} TrimCutsSpaces(s: string) returns (left: string, right: string)
    ensures s == left + Trim(s) + right
    ensures Spaces(left) && Spaces(right)
    decreases |s|
  {
    left, right := "", "";
    if s != "" && Space(s[0]) {
      left, right := TrimCutsSpaces(s[1..]);
      CutFront(s, left, right);
      SpacesJoin([s[0]], left);
      left := [s[0]] + left;
    } else if s != "" && Space(s[|s| - 1]) {
      left, right := TrimCutsSpaces(s[..|s| - 1]);
      var last := [s[|s| - 1]];
      CutBack(s, left, right);
      SpacesJoin(right, last);
      right := right + last;
    }
  }

  ghost predicate Spaces(s: string) {
    forall k :: 0 <= k < |s| ==> Space(s[k])
  }

  lemma SpacesJoin(a: string, b: string)
    requires Spaces(a) && Spaces(b)
    ensures Spaces(a + b)
  {}

  lemma CutFront(s: string, left: string, right: string)
    requires s != "" && Space(s[0]) && s[1..] == left + Trim(s[1..]) + right
    ensures s == [s[0]] + left + Trim(s) + right
  {
    var first, inner := [s[0]], Trim(s[1..]);
    assert Trim(s) == inner;
    assert s == first + (left + inner + right);
  }

  lemma CutBack(s: string, left: string, right: string)
    requires s != "" && !Space(s[0]) && Space(s[|s| - 1])
    requires s[..|s| - 1] == left + Trim(s[..|s| - 1]) + right
    ensures s == left + Trim(s) + (right + [s[|s| - 1]])
  {
    var last, inner := [s[|s| - 1]], Trim(s[..|s| - 1]);
    assert Trim(s) == inner;
    assert s == left + inner + right + last;
  }

  lemma TrimKeepsChars(s: string, c: char)
    requires c in Trim(s)
    ensures c in s
  {
    var left, right := TrimCutsSpaces(s);
    var k :| 0 <= k < |Trim(s)| && Trim(s)[k] == c;
    assert s[|left| + k] == c;
  }

  /** find_first_not_of, find_last_not_of and substr. */
  method TrimWhitespace(s: string) returns (r: string)
    ensures r == Trim(s)
  {
    var lo := 0;
    while lo < |s| && Space(s[lo])
      invariant lo <= |s| && Trim(s) == Trim(s[lo..])
    {
      assert s[lo..][1..] == s[lo + 1..];
      lo := lo + 1;
    }
    var hi := |s|;
    assert s[lo..hi] == s[lo..];
    while lo < hi && Space(s[hi - 1])
      invariant lo <= hi <= |s| && Trim(s) == Trim(s[lo..hi])
      invariant lo < hi ==> !Space(s[lo])
    {
      assert s[lo..hi][..hi - lo - 1] == s[lo..hi - 1];
      hi := hi - 1;
    }
    r := s[lo..hi];
  }
}
