/** Facts about sequences. */
module Sequences {
  lemma {:induction false} Associate<T>(a: seq<T>, b: seq<T>, c: seq<T>)
    ensures a + b + c == a + (b + c)
  {
  }

  /** Where the first `c` is, or the length: `std::string::find` of a character. */
  function IndexOf(s: string, c: char): (n: nat)
    ensures n <= |s| && (n < |s| ==> s[n] == c) && forall i | 0 <= i < n :: s[i] != c
  {
    if s == "" || s[0] == c then 0 else 1 + IndexOf(s[1..], c)
  }

  lemma {:induction false} IndexOfIs(s: string, c: char, n: nat)
    requires n <= |s| && (n < |s| ==> s[n] == c) && forall i | 0 <= i < n :: s[i] != c
    ensures IndexOf(s, c) == n
  {
  }
}
