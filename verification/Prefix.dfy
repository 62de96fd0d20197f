/** The longest common prefix of a list of strings, found by lowering a byte count. */
module Prefix {
  import opened Wrappers
  import opened Text

  ghost predicate IsCommonPrefix(p: string, strings: seq<string>) {
    forall s :: s in strings ==> p <= s
  }

  ghost predicate IsLongestCommonPrefix(p: string, strings: seq<string>) {
    IsCommonPrefix(p, strings) && forall q :: IsCommonPrefix(q, strings) ==> q <= p
  }

  // chars().zip(first.chars()).take_while(equal): how many leading characters agree.
  function Matched(s: string, first: string): (n: nat)
    ensures n <= |s| && n <= |first| && s[..n] == first[..n]
    ensures n < |s| && n < |first| ==> s[n] != first[n]
  {
    if s == [] || first == [] || s[0] != first[0] then 0
    else
      var n := Matched(s[1..], first[1..]);
      assert s[..n + 1] == [s[0]] + s[1..][..n] && first[..n + 1] == [first[0]] + first[1..][..n];
      n + 1
  }

  lemma {:induction false} MatchedIsLongest(s: string, first: string, q: string)
    requires q <= s && q <= first
    ensures |q| <= Matched(s, first)
    decreases |q|
  {
    if q != [] { MatchedIsLongest(s[1..], first[1..], q[1..]); }
  }

  // .map(len_utf8).sum() over those characters.
  function MatchedBytes(s: string, first: string): nat
    decreases |s|
  {
    if s == [] || first == [] || s[0] != first[0] then 0
    else |EncodeChar(s[0])| + MatchedBytes(s[1..], first[1..])
  }

  /** The byte count that one string contributes is the length of whole leading characters of
      `first`, so slicing `first` there never splits a character. */
  lemma {:induction false} MatchedBytesOnBoundary(s: string, first: string)
    ensures MatchedBytes(s, first) == |Encode(first[..Matched(s, first)])| <= |Encode(first)|
    ensures IsCharBoundary(Encode(first), MatchedBytes(s, first))
    decreases |s|
  {
    var n := Matched(s, first);
    EncodeMonotone(first, n, n);
    if n > 0 {
      MatchedBytesOnBoundary(s[1..], first[1..]);
      assert first[..n][0] == first[0] && first[..n][1..] == first[1..][..n - 1];
    }
    BoundariesAreWholeCharacters(first, |Encode(first[..n])|);
  }

  method LongestCommonPrefix(strings: seq<string>) returns (r: Option<string>)
    ensures r.Some? ==> r.value != [] && IsLongestCommonPrefix(r.value, strings)
    ensures r.None? <==> strings == [] || IsLongestCommonPrefix([], strings)
  {
    if |strings| == 0 {
      return None;
    }
    var first := strings[0];
    var len := |Encode(first)|;
    ghost var k: nat := |first|;
    assert first[..k] == first && strings[..1] == [first];
    assert IsCommonPrefix(first, [first]) && first in [first];
    for i := 1 to |strings|
      invariant k <= |first| && len == |Encode(first[..k])| <= |Encode(first)|
      invariant IsLongestCommonPrefix(first[..k], strings[..i])
    {
      var bytes := MatchedBytes(strings[i], first);
      MatchedBytesOnBoundary(strings[i], first);
      ghost var n: nat := Matched(strings[i], first);
      ExtendPrefix(strings[..i], strings[i], first, k, n);
      assert strings[..i + 1] == strings[..i] + [strings[i]];
      EncodeMonotone(first, if n < k then n else k, if n < k then k else n);
      len := if bytes < len then bytes else len;
      k := if n < k then n else k;
    }
    assert strings[..|strings|] == strings;
    BoundariesAreWholeCharacters(first, len);
    if len == 0 {
      assert first[..k] == [];
      r := None;
    } else {
      SliceUnique(first, len, k);
      r := Some(Slice(first, len));
    }
  }

  // One more string shortens the common prefix to where it parts from `first`.
  lemma ExtendPrefix(strings: seq<string>, s: string, first: string, k: nat, n: nat)
    requires first in strings && k <= |first| && IsLongestCommonPrefix(first[..k], strings)
    requires n == Matched(s, first)
    ensures IsLongestCommonPrefix(first[..if n < k then n else k], strings + [s])
  {
    var m := if n < k then n else k;
    var p := first[..m];
    assert p <= first[..k] && p <= first[..n] && s[..n] == first[..n];
    assert p <= s;
    assert IsCommonPrefix(p, strings + [s]) by {
      forall t | t in strings + [s] ensures p <= t { assert t in strings || t == s; }
    }
    forall q | IsCommonPrefix(q, strings + [s]) ensures q <= p {
      assert s in strings + [s] && first in strings + [s];
      assert IsCommonPrefix(q, strings) by {
        forall t | t in strings ensures q <= t { assert t in strings + [s]; }
      }
      assert q <= s && q <= first && q <= first[..k];
      MatchedIsLongest(s, first, q);
    }
  }

  /** The answer does not depend on the order of the strings, nor on which comes first. */
  lemma AnswerIgnoresOrder(strings: seq<string>, others: seq<string>, p: string, q: string)
    requires forall s :: s in strings <==> s in others
    requires IsLongestCommonPrefix(p, strings) && IsLongestCommonPrefix(q, others)
    ensures p == q
  {
    assert IsCommonPrefix(p, others) && IsCommonPrefix(q, strings);
    assert p <= q && q <= p;
  }
}
