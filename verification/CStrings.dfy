/** NUL-terminated strings. */
module CStrings {
  import opened Memory

  /** The characters before the terminating NUL. */
  ghost function Text(s: seq<byte>): (t: seq<byte>)
    requires 0 in s
    ensures |t| < |s| && t == s[..|t|] && s[|t|] == 0 && 0 !in t
  {
    if s[0] == 0 then [] else [s[0]] + Text(s[1..])
  }

  lemma TextIs(s: seq<byte>, n: nat)
    requires n < |s| && s[n] == 0 && 0 !in s[..n]
    ensures Text(s) == s[..n]
  {
    if n > 0 {
      assert s[0] in s[..n] && s[1..][..n - 1] == s[..n][1..];
      TextIs(s[1..], n - 1);
    }
  }
}
