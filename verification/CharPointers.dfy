/** Strings as C passes them. */
module CharPointers {
  /** A char pointer: null, or the characters before the terminating zero. */
  datatype CharPointer = Null | Text(chars: string)

  /** What a name field of n + 1 bytes keeps of a string. */
  function Truncated(s: string, n: nat): (r: string)
    ensures |r| <= n && r <= s && (|s| <= n ==> r == s)
  {
    if |s| > n then s[..n] else s
  }
}
