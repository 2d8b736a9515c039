/**
 String helpers the source obtains from its runtime: SQL `LOWER()`,
 `String.prototype.includes`, `Array.prototype.join`, and counting the `?`
 placeholders of a SQL text.
 */
module Text {

  /** ASCII lower-casing of one character. */
  function LowerChar(c: char): (r: char)
    ensures 'A' <= c <= 'Z' ==> r as int == c as int + 32
    ensures !('A' <= c <= 'Z') ==> r == c
  {
    if 'A' <= c <= 'Z' then (c as int + 32) as char else c
  }

  /** ASCII lower-casing of a string, as `LOWER(name)` on both sides of a name comparison. */
  function Lower(s: string): (r: string)
    ensures |r| == |s|
    ensures forall i | 0 <= i < |s| :: r[i] == LowerChar(s[i])
  {
    if s == [] then [] else [LowerChar(s[0])] + Lower(s[1..])
  }

  /** Two names denote the same country when they agree after lower-casing. */
  predicate SameName(a: string, b: string)
  {
    Lower(a) == Lower(b)
  }

  /** `t` occurs in `s` starting at index `i`. */
  predicate OccursAt(s: string, t: string, i: int)
  {
    0 <= i <= |s| - |t| && s[i..i + |t|] == t
  }

  /** `s.includes(t)`. */
  predicate Contains(s: string, t: string)
  {
    exists i | 0 <= i <= |s| - |t| :: OccursAt(s, t, i)
  }

  /** If some character of `t` never occurs in `s`, then `s` does not contain `t`. */
  lemma NotContainsByChar(s: string, t: string, k: int)
    requires 0 <= k < |t|
    requires forall j | 0 <= j < |s| :: s[j] != t[k]
    ensures !Contains(s, t)
  {
    forall i | 0 <= i <= |s| - |t|
      ensures !OccursAt(s, t, i)
    {
      assert s[i..i + |t|][k] == s[i + k];
    }
  }

  /** `parts.join(sep)`. */
  function Join(parts: seq<string>, sep: string): string
  {
    if parts == [] then ""
    else if |parts| == 1 then parts[0]
    else parts[0] + sep + Join(parts[1..], sep)
  }

  /** Number of occurrences of `c` in `s`. */
  function CountChar(s: string, c: char): nat
  {
    if s == [] then 0 else CountChar(s[..|s| - 1], c) + (if s[|s| - 1] == c then 1 else 0)
  }

  lemma {:induction false} CountCharConcat(a: string, b: string, c: char)
    ensures CountChar(a + b, c) == CountChar(a, c) + CountChar(b, c)
  {
    if b == [] {
      assert a + b == a;
    } else {
      assert (a + b)[..|a + b| - 1] == a + b[..|b| - 1];
      CountCharConcat(a, b[..|b| - 1], c);
    }
  }

  lemma {:induction false} CountCharAbsent(s: string, c: char)
    requires c !in s
    ensures CountChar(s, c) == 0
  {
    if s != [] {
      assert forall x | x in s[..|s| - 1] :: x in s;
      CountCharAbsent(s[..|s| - 1], c);
    }
  }

  /** A string whose only occurrence of `c` is its last character counts `c` once. */
  lemma CountCharOnceAtEnd(s: string, c: char)
    requires |s| > 0 && s[|s| - 1] == c && c !in s[..|s| - 1]
    ensures CountChar(s, c) == 1
  {
    CountCharAbsent(s[..|s| - 1], c);
  }
}
