/** NUL-terminated strings and the two functions on them that the kernel's lookups use. */
module CStrings {

  const NUL := 0

  /** The characters of a C string, without the NUL that ends it in memory. */
  ghost predicate IsText(s: seq<int>) {
    forall i :: 0 <= i < |s| ==> s[i] != NUL
  }

  predicate IsPrefix(p: seq<int>, s: seq<int>) {
    |p| <= |s| && p == s[..|p|]
  }

  /** The bytes at the two addresses decide within `n` steps, so that neither is read past its end. */
  ghost predicate Decided(s1: seq<int>, s2: seq<int>, n: nat) {
    || (n <= |s1| && n <= |s2|)
    || exists i :: 0 <= i < |s1| && i < |s2| && i < n && s1[i] != s2[i]
  }

  method Strlen(str: seq<int>) returns (n: nat)
    requires NUL in str
    ensures n < |str| && str[n] == NUL && IsText(str[..n])
  {
    n := 0;
    while str[n] != NUL
      invariant n < |str| && NUL in str[n..] && IsText(str[..n])
      decreases |str| - n
    {
      n := n + 1;
    }
  }

  /** Zero exactly when the first `n` bytes agree; it does not stop at a NUL. */
  method Strncmp(s1: seq<int>, s2: seq<int>, n: nat) returns (r: int)
    requires Decided(s1, s2, n)
    ensures r == 0 <==> n <= |s1| && n <= |s2| && s1[..n] == s2[..n]
    ensures r != 0 ==> exists i :: 0 <= i < n && i < |s1| && i < |s2| && s1[..i] == s2[..i] && r == s1[i] - s2[i]
  {
    if n == 0 {
      return 0;
    }
    for i := 0 to n
      invariant i <= |s1| && i <= |s2| && s1[..i] == s2[..i]
    {
      if s1[i] != s2[i] {
        assert n <= |s1| && n <= |s2| ==> s1[..n][i] != s2[..n][i];
        return s1[i] - s2[i];
      }
      assert s1[..i + 1] == s1[..i] + [s1[i]] && s2[..i + 1] == s2[..i] + [s2[i]];
    }
    r := 0;
  }

  /** A text is compared with a C string in memory: the comparison is the prefix test. */
  lemma PrefixIsDecided(p: seq<int>, s: seq<int>)
    requires IsText(p) && IsText(s)
    ensures Decided(p, s + [NUL], |p|)
    ensures |p| <= |s| + 1 && p == (s + [NUL])[..|p|] <==> IsPrefix(p, s)
  {
    if |p| > |s| {
      if s == p[..|s|] {
        assert p[|s|] != (s + [NUL])[|s|];
      } else {
        var i :| 0 <= i < |s| && s[i] != p[i];
        assert p[i] != (s + [NUL])[i];
      }
      if |p| == |s| + 1 { assert p[|s|] != (s + [NUL])[..|p|][|s|]; }
    } else {
      assert (s + [NUL])[..|p|] == s[..|p|];
    }
  }
}
