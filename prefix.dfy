/** The shared-prefix measure behind the path compression of the encoding. */
module Prefix {

  /** The length of the longest common prefix of `a` and `b`, in characters. */
  function CommonPrefixLength(a: string, b: string): (n: nat)
    ensures n <= |a| && n <= |b|
    ensures a[..n] == b[..n]
    ensures n < |a| && n < |b| ==> a[n] != b[n]
  {
    if |a| == 0 || |b| == 0 || a[0] != b[0] then 0
    else 1 + CommonPrefixLength(a[1..], b[1..])
  }

  /** The three properties above pin the length down: a common prefix that
      cannot be extended is the longest one. */
  lemma CommonPrefixUnique(a: string, b: string, n: nat)
    requires n <= |a| && n <= |b|
    requires a[..n] == b[..n]
    requires n < |a| && n < |b| ==> a[n] != b[n]
    ensures n == CommonPrefixLength(a, b)
  {
  }

  /** `sharedPrefixLength` (PluginDiff.java:167-175): scans up to the shorter
      length and returns the first index where the strings differ. */
  method SharedPrefixLength(a: string, b: string) returns (n: nat)
    ensures n == CommonPrefixLength(a, b)
  {
    var minLen := if |a| < |b| then |a| else |b|;
    for i := 0 to minLen
      invariant a[..i] == b[..i]
    {
      if a[i] != b[i] {
        CommonPrefixUnique(a, b, i);
        return i;
      }
      assert a[..i + 1] == a[..i] + [a[i]] && b[..i + 1] == b[..i] + [b[i]];
    }
    CommonPrefixUnique(a, b, minLen);
    return minLen;
  }
}
