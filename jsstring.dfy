/**
 * The few JavaScript string operations the image writer uses, with their
 * JavaScript semantics: `indexOf` answers -1 when the character is absent and
 * `slice` counts a negative bound from the end of the string.
 */
module JsString {

  /** `s.indexOf(c)` for a one-character needle. */
  function IndexOf(s: string, c: char): (r: int)
    ensures -1 <= r < |s|
    ensures r == -1 <==> c !in s
    ensures 0 <= r ==> s[r] == c && c !in s[..r]
  {
    if |s| == 0 then -1
    else if s[0] == c then 0
    else
      var k := IndexOf(s[1..], c);
      if k == -1 then -1
      else
        assert s[..k + 1] == [s[0]] + s[1..][..k];
        k + 1
  }

  /** The first occurrence of `c` in `a + b`, when `a` does not contain it, lies in `b`. */
  lemma {:induction false} IndexOfAfter(a: string, b: string, c: char)
    requires c !in a
    ensures IndexOf(a + b, c) == if c in b then |a| + IndexOf(b, c) else -1
  {
    if a == [] {
      assert a + b == b;
    } else {
      assert (a + b)[0] == a[0] != c;
      assert (a + b)[1..] == a[1..] + b;
      IndexOfAfter(a[1..], b, c);
    }
  }

  /** How `slice` turns a bound into an index: negative bounds count from the end, and every bound is clamped to the string. */
  function SliceBound(i: int, n: nat): (r: nat)
    ensures r <= n
    ensures 0 <= i <= n ==> r == i
    ensures -(n as int) <= i < 0 ==> r == n + i
  {
    if i < 0 then (if n + i < 0 then 0 else n + i)
    else if i > n then n
    else i
  }

  /** `s.slice(start, end)`: empty when the clamped start is not before the clamped end. */
  function Slice(s: string, start: int, end: int): (r: string)
    ensures |r| <= |s|
    ensures 0 <= start <= end <= |s| ==> r == s[start..end]
    ensures SliceBound(end, |s|) <= SliceBound(start, |s|) ==> r == ""
  {
    var b, e := SliceBound(start, |s|), SliceBound(end, |s|);
    if b < e then s[b..e] else ""
  }

  /** `s.startsWith(prefix)`. */
  predicate StartsWith(s: string, prefix: string)
  {
    |prefix| <= |s| && s[..|prefix|] == prefix
  }
}
