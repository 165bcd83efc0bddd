/** Counting characters in text, used for the bound on links found and for counting output lines. */
module Strings {

  /** How many times `c` occurs in `s`. */
  function Occurrences(s: string, c: char): (n: nat)
    ensures n <= |s|
    ensures n == 0 <==> c !in s
  {
    if s == [] then 0
    else (if s[0] == c then 1 else 0) + Occurrences(s[1..], c)
  }

  /** Occurrences add up over a concatenation. */
  lemma {:induction false} OccurrencesConcat(a: string, b: string, c: char)
    ensures Occurrences(a + b, c) == Occurrences(a, c) + Occurrences(b, c)
    decreases |a|
  {
    if a == [] {
      assert a + b == b;
    } else {
      assert (a + b)[1..] == a[1..] + b;
      OccurrencesConcat(a[1..], b, c);
    }
  }

  /** Dropping a longer prefix never finds more occurrences. */
  lemma {:induction false} OccurrencesOfSuffix(s: string, i: nat, j: nat, c: char)
    requires i <= j <= |s|
    ensures Occurrences(s[j..], c) <= Occurrences(s[i..], c)
    decreases j - i
  {
    if i < j {
      assert s[i..][1..] == s[i + 1..];
      OccurrencesOfSuffix(s, i + 1, j, c);
    }
  }
}
