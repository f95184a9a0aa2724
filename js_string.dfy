/** The JavaScript string operations the core uses. */
module JsString {

  /** `toLowerCase` on one character, for the ASCII letters. */
  function LowerChar(c: char): char {
    if 'A' <= c <= 'Z' then (c as int + 32) as char else c
  }

  /** `s.toLowerCase()` */
  function ToLowerCase(s: string): (r: string)
    ensures |r| == |s|
    ensures forall i :: 0 <= i < |s| ==> r[i] == LowerChar(s[i])
  {
    seq(|s|, i requires 0 <= i < |s| => LowerChar(s[i]))
  }

  /** `s.slice(-n)`: the last `n` characters, or all of `s` when it is shorter. */
  function SliceLast(s: string, n: nat): (r: string)
    ensures |r| == if |s| < n then |s| else n
    ensures s == s[..|s| - |r|] + r
  {
    if |s| <= n then s else s[|s| - n..]
  }

  /** `s.slice(n)`: everything from index `n`, or `""` when `s` is shorter. */
  function SliceFrom(s: string, n: nat): (r: string)
    ensures |s| <= n ==> r == ""
    ensures n <= |s| ==> s == s[..n] + r
  {
    if |s| <= n then "" else s[n..]
  }
}
