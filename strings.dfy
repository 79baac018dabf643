/** Character strings built the way Python builds them with `*`. */
module Strings {

  /** `c * n`: the character `c`, `n` times. */
  function Repeat(c: char, n: nat): (s: string)
    ensures |s| == n && forall i :: 0 <= i < n ==> s[i] == c
  {
    seq(n, _ => c)
  }
}
