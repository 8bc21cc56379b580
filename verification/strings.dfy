/** The two JavaScript string methods the job search relies on:
    `String.prototype.toLowerCase` (restricted to ASCII letters) and
    `String.prototype.includes`. */
module JsStrings {

  /** Lower-cases one ASCII letter; every other character is left alone. */
  function LowerChar(c: char): char {
    if 'A' <= c <= 'Z' then (c as int + 32) as char else c
  }

  /** `s.toLowerCase()`, with case folding limited to 'A'..'Z': the result
      has the same length, holds no upper-case letter, maps each upper-case
      letter to its lower-case partner and keeps every other character. */
  function ToLowerCase(s: string): (r: string)
    ensures |r| == |s|
    ensures forall i :: 0 <= i < |r| ==> !('A' <= r[i] <= 'Z')
    ensures forall i :: 0 <= i < |s| && 'A' <= s[i] <= 'Z' ==> r[i] as int - 'a' as int == s[i] as int - 'A' as int
    ensures forall i :: 0 <= i < |s| && !('A' <= s[i] <= 'Z') ==> r[i] == s[i]
  {
    seq(|s|, i requires 0 <= i < |s| => LowerChar(s[i]))
  }

  /** Lower-casing twice is the same as lower-casing once. */
  lemma ToLowerCaseIdempotent(s: string)
    ensures ToLowerCase(ToLowerCase(s)) == ToLowerCase(s)
  {
  }

  /** `sub` occurs in `s` starting at index `i`. */
  ghost predicate OccursAt(s: string, sub: string, i: int) {
    0 <= i && i + |sub| <= |s| && s[i..i + |sub|] == sub
  }

  /** An occurrence is either at the front or an occurrence in the tail. */
  lemma OccursAtShift(s: string, sub: string)
    requires |s| > 0
    ensures (exists i :: OccursAt(s, sub, i)) <==>
            OccursAt(s, sub, 0) || exists i :: OccursAt(s[1..], sub, i)
  {
    forall i | OccursAt(s[1..], sub, i)
      ensures OccursAt(s, sub, i + 1)
    {
      assert s[1..][i..i + |sub|] == s[i + 1..i + 1 + |sub|];
    }
    forall i | OccursAt(s, sub, i) && i > 0
      ensures OccursAt(s[1..], sub, i - 1)
    {
      assert s[1..][i - 1..i - 1 + |sub|] == s[i..i + |sub|];
    }
  }

  /** `s.includes(sub)`: true exactly when `sub` occurs somewhere in `s`. */
  function Includes(s: string, sub: string): (r: bool)
    ensures r <==> exists i :: OccursAt(s, sub, i)
    decreases |s|
  {
    if |sub| > |s| then false
    else if s[..|sub|] == sub then assert OccursAt(s, sub, 0); true
    else
      OccursAtShift(s, sub);
      Includes(s[1..], sub)
  }

  /** Every string includes the empty string. */
  lemma IncludesEmpty(s: string)
    ensures Includes(s, "")
  {
    assert OccursAt(s, "", 0);
  }

  /** An occurrence in the front part of a string is one in the whole. */
  lemma OccursInPrefix(a: string, b: string, sub: string, k: int)
    requires OccursAt(a, sub, k)
    ensures OccursAt(a + b, sub, k)
  {
    assert (a + b)[k..k + |sub|] == a[k..k + |sub|];
  }

  /** An occurrence in the back part of a string is one in the whole,
      shifted by the length of the front. */
  lemma OccursInSuffix(a: string, b: string, sub: string, k: int)
    requires OccursAt(b, sub, k)
    ensures OccursAt(a + b, sub, |a| + k)
  {
    assert (a + b)[|a| + k..|a| + k + |sub|] == b[k..k + |sub|];
  }

  /** An occurrence of an occurrence is an occurrence. */
  lemma OccursTransitive(s: string, mid: string, sub: string, m: int, k: int)
    requires OccursAt(s, mid, m) && OccursAt(mid, sub, k)
    ensures OccursAt(s, sub, m + k)
  {
    forall j | 0 <= j < |sub|
      ensures s[m + k..m + k + |sub|][j] == sub[j]
    {
      assert s[m..m + |mid|][k + j] == mid[k + j];
    }
  }

  /** Lower-casing both sides keeps every occurrence in place. */
  lemma OccursUnderLowerCase(s: string, sub: string, k: int)
    requires OccursAt(s, sub, k)
    ensures OccursAt(ToLowerCase(s), ToLowerCase(sub), k)
  {
    var ls, lsub := ToLowerCase(s), ToLowerCase(sub);
    forall j | 0 <= j < |sub|
      ensures ls[k..k + |sub|][j] == lsub[j]
    {
      assert s[k + j] == sub[j];
    }
  }
}
