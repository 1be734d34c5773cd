/** Values shared by the game model and the authentication filter. */
module Common {

  /** A value that may be absent: JavaScript's `null`/`undefined`, Java's `null`. */
  datatype Option<T> = None | Some(value: T)

  /** A sequence is its prefix of length `n` followed by the rest. */
  lemma SplitAt<T>(s: seq<T>, n: nat)
    requires n <= |s|
    ensures s == s[..n] + s[n..]
  {
  }
}
