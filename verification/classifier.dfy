/**
 * The first half of EasyEngine.parse: the tokens after the command name are
 * sorted into active flag names and positional arguments.
 */
module Classifier {
  import opened Outcomes
  import TypeParser

  /** Starts with "--": the rest of the token is one flag name. */
  predicate IsLongFlag(t: string) {
    |t| >= 2 && t[0] == '-' && t[1] == '-'
  }

  /** Starts with one "-" and a non-digit: each following character is a flag. */
  predicate IsShortBundle(t: string) {
    |t| >= 2 && t[0] == '-' && t[1] != '-' && !TypeParser.IsDigit(t[1])
  }

  /** No leading "-", or "-" followed by a digit (a negative number). */
  predicate IsArgument(t: string) {
    !(|t| >= 1 && t[0] == '-') || (|t| >= 2 && TypeParser.IsDigit(t[1]))
  }

  /** The names contributed by "--name" tokens, in order. */
  function LongFlags(ts: seq<string>): seq<string> {
    if ts == [] then []
    else (if IsLongFlag(ts[0]) then [ts[0][2..]] else []) + LongFlags(ts[1..])
  }

  /** Each character as a one-character string (Character.toString). */
  function Singletons(s: string): (r: seq<string>)
    ensures |r| == |s| && forall i :: 0 <= i < |s| ==> r[i] == [s[i]]
  {
    if s == [] then [] else [[s[0]]] + Singletons(s[1..])
  }

  /** The names contributed by "-abc" bundles, in order. */
  function ShortFlags(ts: seq<string>): seq<string> {
    if ts == [] then []
    else (if IsShortBundle(ts[0]) then Singletons(ts[0][1..]) else []) + ShortFlags(ts[1..])
  }

  /** The positional arguments, in their original order. */
  function Arguments(ts: seq<string>): seq<string> {
    if ts == [] then []
    else (if IsArgument(ts[0]) then [ts[0]] else []) + Arguments(ts[1..])
  }

  /** The tokens that are not arguments. */
  function FlagTokens(ts: seq<string>): seq<string> {
    if ts == [] then []
    else (if IsArgument(ts[0]) then [] else [ts[0]]) + FlagTokens(ts[1..])
  }

  datatype Classified = Classified(flags: seq<string>, arguments: seq<string>)

  /**
   * The flag list and the argument list of parse. The token "-" makes
   * `charAt(1)` throw before anything else happens.
   */
  function Classify(ts: seq<string>): (r: Result<Classified>)
    ensures r.Failure? <==> "-" in ts
    ensures r.Failure? ==> r.error == StringIndexOutOfBounds
  {
    if "-" in ts then Failure(StringIndexOutOfBounds)
    else Success(Classified(LongFlags(ts) + ShortFlags(ts), Arguments(ts)))
  }

  /** A token named in some flag list entry. */
  predicate Activates(t: string, x: string) {
    (IsLongFlag(t) && x == t[2..]) || (IsShortBundle(t) && |x| == 1 && x[0] in t[1..])
  }

  lemma {:induction false} LongFlagsMembership(ts: seq<string>, x: string)
    ensures x in LongFlags(ts) <==> exists i :: 0 <= i < |ts| && IsLongFlag(ts[i]) && x == ts[i][2..]
  {
    if ts != [] {
      LongFlagsMembership(ts[1..], x);
      if exists i :: 1 <= i < |ts| && IsLongFlag(ts[i]) && x == ts[i][2..] {
        var i :| 1 <= i < |ts| && IsLongFlag(ts[i]) && x == ts[i][2..];
        assert ts[1..][i - 1] == ts[i];
      }
    }
  }

  lemma {:induction false} ShortFlagsMembership(ts: seq<string>, x: string)
    ensures x in ShortFlags(ts) <==>
              exists i :: 0 <= i < |ts| && IsShortBundle(ts[i]) && |x| == 1 && x[0] in ts[i][1..]
  {
    if ts != [] {
      ShortFlagsMembership(ts[1..], x);
      if exists i :: 1 <= i < |ts| && IsShortBundle(ts[i]) && |x| == 1 && x[0] in ts[i][1..] {
        var i :| 1 <= i < |ts| && IsShortBundle(ts[i]) && |x| == 1 && x[0] in ts[i][1..];
        assert ts[1..][i - 1] == ts[i];
      }
      if IsShortBundle(ts[0]) && |x| == 1 && x[0] in ts[0][1..] {
        var k :| 0 <= k < |ts[0][1..]| && ts[0][1..][k] == x[0];
        assert Singletons(ts[0][1..])[k] == x;
      }
    }
  }

  /** A name is an active flag exactly when some token names it. */
  lemma FlagMembership(ts: seq<string>, x: string)
    requires Classify(ts).Success?
    ensures x in Classify(ts).value.flags <==> exists i :: 0 <= i < |ts| && Activates(ts[i], x)
  {
    LongFlagsMembership(ts, x);
    ShortFlagsMembership(ts, x);
  }

  /** Every token other than "-" is exactly one of: long flag, short bundle, argument. */
  lemma TokenKindsExclusive(t: string)
    requires t != "-"
    ensures IsArgument(t) <==> !IsLongFlag(t) && !IsShortBundle(t)
    ensures !(IsLongFlag(t) && IsShortBundle(t))
  {
  }

  /** Classification splits the tokens into arguments and flag tokens, losing none. */
  lemma {:induction false} Partition(ts: seq<string>)
    ensures multiset(Arguments(ts)) + multiset(FlagTokens(ts)) == multiset(ts)
    ensures forall t :: t in FlagTokens(ts) ==> !IsArgument(t)
  {
    if ts != [] {
      Partition(ts[1..]);
      assert ts == [ts[0]] + ts[1..];
    }
  }

  lemma {:induction false} ArgumentsConcat(a: seq<string>, b: seq<string>)
    ensures Arguments(a + b) == Arguments(a) + Arguments(b)
  {
    if a != [] {
      assert (a + b)[1..] == a[1..] + b;
      ArgumentsConcat(a[1..], b);
    } else {
      assert a + b == b;
    }
  }

  /**
   * Moving a flag token leaves the arguments and the set of active flags as
   * they were: flags may stand anywhere among the arguments.
   */
  lemma FlagPlacement(a: seq<string>, f: string, b: seq<string>)
    requires !IsArgument(f)
    ensures Classify(a + [f] + b).Success? <==> Classify([f] + a + b).Success?
    ensures Classify(a + [f] + b).Success? ==>
              Classify(a + [f] + b).value.arguments == Classify([f] + a + b).value.arguments &&
              forall x :: x in Classify(a + [f] + b).value.flags <==> x in Classify([f] + a + b).value.flags
  {
    var s1 := a + [f] + b;
    var s2 := [f] + a + b;
    assert multiset(s1) == multiset(s2);
    assert "-" in s1 <==> "-" in s2 by {
      assert "-" in s1 <==> "-" in multiset(s1);
      assert "-" in s2 <==> "-" in multiset(s2);
    }
    ArgumentsConcat(a + [f], b);
    ArgumentsConcat(a, [f]);
    ArgumentsConcat([f] + a, b);
    ArgumentsConcat([f], a);
    assert Arguments([f]) == [];
    if Classify(s1).Success? {
      forall x
        ensures x in Classify(s1).value.flags <==> x in Classify(s2).value.flags
      {
        FlagMembership(s1, x);
        FlagMembership(s2, x);
        SameActivation(s1, s2, x);
      }
    }
  }

  lemma SameActivation(s1: seq<string>, s2: seq<string>, x: string)
    requires multiset(s1) == multiset(s2)
    ensures (exists i :: 0 <= i < |s1| && Activates(s1[i], x)) <==> (exists i :: 0 <= i < |s2| && Activates(s2[i], x))
  {
    if exists i :: 0 <= i < |s1| && Activates(s1[i], x) {
      var i :| 0 <= i < |s1| && Activates(s1[i], x);
      assert s1[i] in multiset(s2);
      var j :| 0 <= j < |s2| && s2[j] == s1[i];
    }
    if exists i :: 0 <= i < |s2| && Activates(s2[i], x) {
      var i :| 0 <= i < |s2| && Activates(s2[i], x);
      assert s2[i] in multiset(s1);
      var j :| 0 <= j < |s1| && s1[j] == s2[i];
    }
  }
}
