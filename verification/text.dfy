/** String helpers that stand for the java.lang.String methods the engine calls. */
module Text {

  /** Character.toLowerCase restricted to the ASCII range. */
  function LowerChar(c: char): char {
    if 'A' <= c <= 'Z' then (c as int + 32) as char else c
  }

  /** String.equalsIgnoreCase with ASCII case folding. */
  predicate EqualsIgnoreCase(a: string, b: string) {
    |a| == |b| && forall i :: 0 <= i < |a| ==> LowerChar(a[i]) == LowerChar(b[i])
  }

  lemma EqualsIgnoreCaseIsEquivalence(a: string, b: string, c: string)
    ensures EqualsIgnoreCase(a, a)
    ensures EqualsIgnoreCase(a, b) ==> EqualsIgnoreCase(b, a)
    ensures EqualsIgnoreCase(a, b) && EqualsIgnoreCase(b, c) ==> EqualsIgnoreCase(a, c)
  {
  }

  /** `a.compareTo(b) <= 0` for Java strings: lexicographic on characters, a proper prefix first. */
  predicate StrLe(a: string, b: string) {
    if a == [] then true
    else if b == [] then false
    else if a[0] != b[0] then a[0] < b[0]
    else StrLe(a[1..], b[1..])
  }

  lemma {:induction false} StrLeTotal(a: string, b: string)
    ensures StrLe(a, b) || StrLe(b, a)
  {
    if a != [] && b != [] && a[0] == b[0] {
      StrLeTotal(a[1..], b[1..]);
    }
  }

  lemma {:induction false} StrLeTransitive(a: string, b: string, c: string)
    requires StrLe(a, b) && StrLe(b, c)
    ensures StrLe(a, c)
  {
    if a != [] && b != [] && c != [] && a[0] == b[0] && b[0] == c[0] {
      StrLeTransitive(a[1..], b[1..], c[1..]);
    }
  }

  lemma {:induction false} StrLeAntisymmetric(a: string, b: string)
    requires StrLe(a, b) && StrLe(b, a)
    ensures a == b
  {
    if a != [] && b != [] {
      StrLeAntisymmetric(a[1..], b[1..]);
      assert a == [a[0]] + a[1..] && b == [b[0]] + b[1..];
    }
  }

  /** Concatenation regroups freely; appending to a builder relies on it. */
  lemma ConcatAssoc(a: string, b: string, c: string)
    ensures a + b + c == a + (b + c)
  {
  }

  /** `n` space characters. */
  function Spaces(n: nat): (r: string)
    ensures |r| == n && forall i :: 0 <= i < n ==> r[i] == ' '
  {
    if n == 0 then "" else Spaces(n - 1) + " "
  }

  /** `c` repeated `n` times. */
  function Repeat(c: char, n: nat): (r: string)
    ensures |r| == n && forall i :: 0 <= i < n ==> r[i] == c
  {
    if n == 0 then "" else Repeat(c, n - 1) + [c]
  }

  /** The number of occurrences of `c` in `s`. */
  function Occurrences(c: char, s: string): nat {
    if s == [] then 0 else Occurrences(c, s[..|s| - 1]) + (if s[|s| - 1] == c then 1 else 0)
  }

  lemma {:induction false} OccurrencesAppend(c: char, s: string, t: string)
    ensures Occurrences(c, s + t) == Occurrences(c, s) + Occurrences(c, t)
  {
    if t != [] {
      assert (s + t)[..|s + t| - 1] == s + t[..|t| - 1];
      OccurrencesAppend(c, s, t[..|t| - 1]);
    } else {
      assert s + t == s;
    }
  }

  lemma {:induction false} OccurrencesRepeat(c: char, d: char, n: nat)
    ensures Occurrences(c, Repeat(d, n)) == if c == d then n else 0
  {
    if n > 0 {
      assert Repeat(d, n)[..n - 1] == Repeat(d, n - 1);
      OccurrencesRepeat(c, d, n - 1);
    }
  }

  /** No position of `s` holds `c`. */
  lemma {:induction false} OccurrencesAbsent(c: char, s: string)
    requires forall i :: 0 <= i < |s| ==> s[i] != c
    ensures Occurrences(c, s) == 0
  {
    if s != [] {
      OccurrencesAbsent(c, s[..|s| - 1]);
    }
  }
}
