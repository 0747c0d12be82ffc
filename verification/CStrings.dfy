// Null-terminated strings in character arrays.

module CStrings {
  const NUL: char := 0 as char

  // What C sees of a character array: everything before the first null character.
  function CString(s: string): (r: string)
    ensures |r| <= |s| && r == s[..|r|] && NUL !in r
    ensures |r| < |s| ==> s[|r|] == NUL
  {
    if s == [] || s[0] == NUL then [] else [s[0]] + CString(s[1..])
  }

  lemma {:induction false} CStringWhole(s: string)
    requires NUL !in s
    ensures CString(s) == s
  {
    if s != [] {
      CStringWhole(s[1..]);
    }
  }

  // Whatever follows the null character does not matter.
  lemma {:induction false} CStringEnded(s: string, rest: string)
    requires NUL !in s
    ensures CString(s + [NUL] + rest) == s
  {
    if s != [] {
      assert (s + [NUL] + rest)[1..] == s[1..] + [NUL] + rest;
      CStringEnded(s[1..], rest);
    }
  }

  lemma {:induction false} CStringStops(s: string, k: nat)
    requires k < |s| && s[k] == NUL
    ensures |CString(s)| <= k
  {
    if s[0] != NUL {
      CStringStops(s[1..], k - 1);
    }
  }
}
