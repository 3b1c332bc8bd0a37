/**
 * The second half of EasyEngine.parse: filling the handler's parameter slots
 * from the active flags, the positional arguments and the metadata objects,
 * followed by the check for surplus arguments.
 */
module Binder {
  import opened Outcomes
  import opened Params
  import TypeParser

  // ---------------------------------------------------------------------
  // One slot at a time

  /**
   * The value of a Meta or positional slot that has nothing to take: the
   * type's zero value under @Optional, the parsed literal under
   * @DefaultValue, otherwise a MalformedCommand error.
   */
  function MissingValue(p: ParamSpec, fp: TypeParser.FloatParsers): (r: Result<Value>)
    ensures r == Failure(MalformedCommand) <==> p.policy.Required?
    ensures p.policy.Optional? ==> r == Success(TypeParser.DefaultValue(p.kind))
    ensures p.policy.Optional? ==> (r.value.Null? <==> !TypeParser.IsPrimitive(p.kind))
    ensures p.policy.Default? ==> r == TypeParser.ParseType(p.kind, p.policy.literal, fp)
    ensures p.policy.Default? && r.Success? ==> TypeParser.HasKind(r.value, p.kind)
  {
    match p.policy
    case Optional => Success(TypeParser.DefaultValue(p.kind))
    case Default(literal) => TypeParser.ParseType(p.kind, literal, fp)
    case Required => Failure(MalformedCommand)
  }

  /** handleMetaArgument: the metadata object at `metaIndex`, if there is one. */
  function MetaValue(p: ParamSpec, metadata: seq<Value>, metaIndex: nat, fp: TypeParser.FloatParsers): (r: Result<Value>)
    ensures metaIndex < |metadata| ==> r == Success(metadata[metaIndex])
    ensures metaIndex >= |metadata| ==> (r == Failure(MalformedCommand) <==> p.policy.Required?)
  {
    if metaIndex >= |metadata| then MissingValue(p, fp) else Success(metadata[metaIndex])
  }

  /** handleFlag: the flag is on when its alternative or its one-letter name is listed. */
  predicate FlagValue(trigger: char, alternative: string, flags: seq<string>) {
    alternative in flags || [trigger] in flags
  }

  /**
   * Every token coerced to the element type, left to right; the first token
   * that does not parse decides the error.
   */
  function CoerceAll(k: Kind, ts: seq<string>, fp: TypeParser.FloatParsers): Result<seq<Value>>
    decreases |ts|
  {
    if ts == [] then Success([])
    else
      var init :- CoerceAll(k, ts[..|ts| - 1], fp);
      var v :- TypeParser.ParseType(k, ts[|ts| - 1], fp);
      Success(init + [v])
  }

  /**
   * On success, element j is token j parsed to the element type; the
   * coercion fails exactly when some token does not parse.
   */
  lemma {:induction false} CoerceAllMeaning(k: Kind, ts: seq<string>, fp: TypeParser.FloatParsers)
    ensures var r := CoerceAll(k, ts, fp);
            r.Success? ==>
              |r.value| == |ts| && forall j :: 0 <= j < |ts| ==> TypeParser.ParseType(k, ts[j], fp) == Success(r.value[j])
    ensures CoerceAll(k, ts, fp).Failure? <==> exists j :: 0 <= j < |ts| && TypeParser.ParseType(k, ts[j], fp).Failure?
    ensures var r := CoerceAll(k, ts, fp);
            r.Failure? ==> r.error in {NumberFormat, IllegalArgument, ArrayIndexOutOfBounds}
    decreases |ts|
  {
    if ts != [] {
      var init := ts[..|ts| - 1];
      CoerceAllMeaning(k, init, fp);
      forall j | 0 <= j < |init|
        ensures init[j] == ts[j]
      {
      }
      if CoerceAll(k, init, fp).Failure? {
        var j :| 0 <= j < |init| && TypeParser.ParseType(k, init[j], fp).Failure?;
        assert TypeParser.ParseType(k, ts[j], fp).Failure?;
      }
    }
  }

  /** The failure of a prefix is the failure of the whole. */
  lemma {:induction false} CoerceAllFailurePrefix(k: Kind, ts: seq<string>, m: nat, fp: TypeParser.FloatParsers)
    requires m <= |ts| && CoerceAll(k, ts[..m], fp).Failure?
    ensures CoerceAll(k, ts, fp) == CoerceAll(k, ts[..m], fp)
    decreases |ts|
  {
    if m < |ts| {
      assert ts[..|ts| - 1][..m] == ts[..m];
      CoerceAllFailurePrefix(k, ts[..|ts| - 1], m, fp);
    } else {
      assert ts[..m] == ts;
    }
  }

  /** Coercing one more token extends the coerced prefix, or fails with that token's error. */
  lemma CoerceAllSnoc(k: Kind, ts: seq<string>, j: nat, fp: TypeParser.FloatParsers)
    requires j < |ts| && CoerceAll(k, ts[..j], fp).Success?
    ensures CoerceAll(k, ts[..j + 1], fp) ==
              match TypeParser.ParseType(k, ts[j], fp)
              case Success(v) => Success(CoerceAll(k, ts[..j], fp).value + [v])
              case Failure(e) => Failure(e)
  {
    assert ts[..j + 1][..j] == ts[..j];
  }

  /** The value handed to a positional slot and the next argument cursor. */
  datatype Taken = Taken(value: Value, next: int)

  /**
   * handleArgument: the argument at `cmdIndex` parsed to the slot's type;
   * past the end, the missing value; an array takes every remaining argument
   * and leaves the cursor at -1, where a later positional slot fails.
   */
  function ArgumentSpec(p: ParamSpec, args: seq<string>, cmdIndex: int, fp: TypeParser.FloatParsers): Result<Taken> {
    if |args| <= cmdIndex then
      var v :- MissingValue(p, fp);
      Success(Taken(v, cmdIndex + 1))
    else if cmdIndex < 0 then Failure(IndexOutOfBounds)
    else if p.kind.Array? then
      var vs :- CoerceAll(p.kind.elem, args[cmdIndex..], fp);
      Success(Taken(ArrayV(vs), -1))
    else
      var v :- TypeParser.ParseType(p.kind, args[cmdIndex], fp);
      Success(Taken(v, cmdIndex + 1))
  }

  /** The array branch of handleArgument: every argument from `from` on, parsed into a fresh array. */
  method CoerceRest(k: Kind, args: seq<string>, from: nat, fp: TypeParser.FloatParsers) returns (r: Result<seq<Value>>)
    requires from < |args|
    ensures r == CoerceAll(k, args[from..], fp)
  {
    ghost var rest := args[from..];
    var arr := new Value[|args| - from];
    var idx := from;
    var j := 0;
    while idx < |args|
      invariant from <= idx <= |args| && j == idx - from
      invariant CoerceAll(k, rest[..j], fp) == Success(arr[..j])
    {
      var v := TypeParser.ParseType(k, args[idx], fp);
      CoerceAllSnoc(k, rest, j, fp);
      if v.Failure? {
        CoerceAllFailurePrefix(k, rest, j + 1, fp);
        return Failure(v.error);
      }
      arr[j] := v.value;
      assert arr[..j + 1] == arr[..j] + [v.value];
      idx := idx + 1;
      j := j + 1;
    }
    assert rest[..j] == rest && arr[..j] == arr[..];
    return Success(arr[..]);
  }

  /** handleArgument: the missing value, the index error at -1, an array, or one parsed token. */
  method HandleArgument(p: ParamSpec, args: seq<string>, cmdIndex: int, fp: TypeParser.FloatParsers) returns (r: Result<Taken>)
    ensures r == ArgumentSpec(p, args, cmdIndex, fp)
  {
    if |args| <= cmdIndex {
      var v := MissingValue(p, fp);
      if v.Failure? {
        return Failure(v.error);
      }
      return Success(Taken(v.value, cmdIndex + 1));
    }
    if cmdIndex < 0 {
      return Failure(IndexOutOfBounds);
    }
    if p.kind.Array? {
      var vs := CoerceRest(p.kind.elem, args, cmdIndex, fp);
      if vs.Failure? {
        return Failure(vs.error);
      }
      return Success(Taken(ArrayV(vs.value), -1));
    }
    var v := TypeParser.ParseType(p.kind, args[cmdIndex], fp);
    if v.Failure? {
      return Failure(v.error);
    }
    return Success(Taken(v.value, cmdIndex + 1));
  }

  // ---------------------------------------------------------------------
  // The binding loop

  /** The argument cursor and the metadata cursor of the loop. */
  datatype Cursors = Cursors(cmdIndex: int, metaIndex: nat)

  /** The slots filled so far and the cursors after them. */
  datatype Progress = Progress(values: seq<Value>, at: Cursors)

  /** One iteration: Meta first, then Flag, otherwise a positional slot. */
  function Step(p: ParamSpec, flags: seq<string>, args: seq<string>, metadata: seq<Value>,
                c: Cursors, fp: TypeParser.FloatParsers): Result<(Value, Cursors)> {
    match p.role
    case Meta =>
      var v :- MetaValue(p, metadata, c.metaIndex, fp);
      Success((v, Cursors(c.cmdIndex, c.metaIndex + 1)))
    case Flag(trigger, alternative) =>
      Success((BoolV(FlagValue(trigger, alternative, flags)), c))
    case Positional =>
      var t :- ArgumentSpec(p, args, c.cmdIndex, fp);
      Success((t.value, Cursors(t.next, c.metaIndex)))
  }

  /** The loop after its first `n` iterations. */
  function BindPrefix(params: seq<ParamSpec>, n: nat, flags: seq<string>, args: seq<string>,
                      metadata: seq<Value>, fp: TypeParser.FloatParsers): Result<Progress>
    requires n <= |params|
  {
    if n == 0 then Success(Progress([], Cursors(0, 0)))
    else
      var before :- BindPrefix(params, n - 1, flags, args, metadata, fp);
      var s :- Step(params[n - 1], flags, args, metadata, before.at, fp);
      Success(Progress(before.values + [s.0], s.1))
  }

  /** How many parameters take command-line arguments. */
  function PositionalCount(ps: seq<ParamSpec>): nat {
    if ps == [] then 0
    else PositionalCount(ps[..|ps| - 1]) + (if IsPositional(ps[|ps| - 1]) then 1 else 0)
  }

  /** How many parameters are Meta. */
  function MetaCount(ps: seq<ParamSpec>): nat {
    if ps == [] then 0
    else MetaCount(ps[..|ps| - 1]) + (if ps[|ps| - 1].role.Meta? then 1 else 0)
  }

  /** Some positional parameter is an array. */
  predicate HasArrayPositional(ps: seq<ParamSpec>) {
    exists i :: 0 <= i < |ps| && IsPositional(ps[i]) && ps[i].kind.Array?
  }

  /** The surplus test of parse, exactly as the source writes it. */
  predicate TooManyArguments(params: seq<ParamSpec>, args: seq<string>, cmdIndex: int) {
    var n := PositionalCount(params);
    (cmdIndex > 0 && |args| > n) || (n == 0 && |args| > 0)
  }

  /** The parameter values of parse, or the error it throws. */
  function BindSpec(params: seq<ParamSpec>, flags: seq<string>, args: seq<string>,
                    metadata: seq<Value>, fp: TypeParser.FloatParsers): (r: Result<seq<Value>>)
    ensures r.Success? ==> |r.value| == |params|
  {
    var done :- BindPrefix(params, |params|, flags, args, metadata, fp);
    PrefixCursors(params, |params|, flags, args, metadata, fp);
    if TooManyArguments(params, args, done.at.cmdIndex) then Failure(MalformedCommand)
    else Success(done.values)
  }

  /** A failed iteration is the failure of the whole loop. */
  lemma {:induction false} BindPrefixFailure(params: seq<ParamSpec>, m: nat, n: nat, flags: seq<string>, args: seq<string>,
                                             metadata: seq<Value>, fp: TypeParser.FloatParsers)
    requires m <= n <= |params| && BindPrefix(params, m, flags, args, metadata, fp).Failure?
    ensures BindPrefix(params, n, flags, args, metadata, fp) == BindPrefix(params, m, flags, args, metadata, fp)
    decreases n
  {
    if m < n {
      BindPrefixFailure(params, m, n - 1, flags, args, metadata, fp);
    }
  }

  /** The binding loop of parse, filling the slots of a fresh array. */
  method Bind(params: seq<ParamSpec>, flags: seq<string>, args: seq<string>,
              metadata: seq<Value>, fp: TypeParser.FloatParsers) returns (r: Result<seq<Value>>)
    ensures r == BindSpec(params, flags, args, metadata, fp)
  {
    var paramValues := new Value[|params|];
    var cmdIndex := 0;
    var metaIndex := 0;
    for i := 0 to |params|
      invariant BindPrefix(params, i, flags, args, metadata, fp) == Success(Progress(paramValues[..i], Cursors(cmdIndex, metaIndex)))
    {
      var p := params[i];
      if p.role.Meta? {
        var v := MetaValue(p, metadata, metaIndex, fp);
        if v.Failure? {
          BindPrefixFailure(params, i + 1, |params|, flags, args, metadata, fp);
          return Failure(v.error);
        }
        paramValues[i] := v.value;
        metaIndex := metaIndex + 1;
      } else if p.role.Flag? {
        paramValues[i] := BoolV(FlagValue(p.role.trigger, p.role.alternative, flags));
      } else {
        var t := HandleArgument(p, args, cmdIndex, fp);
        if t.Failure? {
          BindPrefixFailure(params, i + 1, |params|, flags, args, metadata, fp);
          return Failure(t.error);
        }
        paramValues[i] := t.value.value;
        cmdIndex := t.value.next;
      }
      assert paramValues[..i + 1] == paramValues[..i] + [paramValues[i]];
    }
    assert paramValues[..|params|] == paramValues[..];
    if TooManyArguments(params, args, cmdIndex) {
      return Failure(MalformedCommand);
    }
    return Success(paramValues[..]);
  }

  // ---------------------------------------------------------------------
  // What the loop computes

  /** The cursors count the Meta and the positional parameters of `ps`; an array leaves -1. */
  predicate CursorsCount(ps: seq<ParamSpec>, at: Cursors) {
    at.metaIndex == MetaCount(ps) &&
    (at.cmdIndex == PositionalCount(ps) || (at.cmdIndex == -1 && HasArrayPositional(ps)))
  }

  /** The cursors after `n` iterations count the Meta and positional slots so far. */
  lemma {:induction false} PrefixCursors(params: seq<ParamSpec>, n: nat, flags: seq<string>, args: seq<string>,
                                         metadata: seq<Value>, fp: TypeParser.FloatParsers)
    requires n <= |params| && BindPrefix(params, n, flags, args, metadata, fp).Success?
    ensures CursorsCount(params[..n], BindPrefix(params, n, flags, args, metadata, fp).value.at)
    ensures |BindPrefix(params, n, flags, args, metadata, fp).value.values| == n
  {
    if n > 0 {
      PrefixCursors(params, n - 1, flags, args, metadata, fp);
      assert params[..n] == params[..n - 1] + [params[n - 1]];
      var c := BindPrefix(params, n - 1, flags, args, metadata, fp).value.at;
      CursorsStep(params[..n - 1], params[n - 1], flags, args, metadata, c, fp);
    }
  }

  /** One iteration keeps the cursors counting. */
  lemma CursorsStep(ps: seq<ParamSpec>, p: ParamSpec, flags: seq<string>, args: seq<string>,
                    metadata: seq<Value>, c: Cursors, fp: TypeParser.FloatParsers)
    requires CursorsCount(ps, c) && Step(p, flags, args, metadata, c, fp).Success?
    ensures CursorsCount(ps + [p], Step(p, flags, args, metadata, c, fp).value.1)
  {
    var ps' := ps + [p];
    assert ps'[..|ps|] == ps && ps'[|ps|] == p;
    if HasArrayPositional(ps) {
      var i :| 0 <= i < |ps| && IsPositional(ps[i]) && ps[i].kind.Array?;
      assert ps'[i] == ps[i];
    }
  }

  /** The loop that succeeds for `n` iterations passed through every earlier one. */
  lemma {:induction false} PrefixStep(params: seq<ParamSpec>, i: nat, n: nat, flags: seq<string>, args: seq<string>,
                                      metadata: seq<Value>, fp: TypeParser.FloatParsers)
    requires i < n <= |params| && BindPrefix(params, n, flags, args, metadata, fp).Success?
    ensures BindPrefix(params, i, flags, args, metadata, fp).Success?
    ensures BindPrefix(params, i + 1, flags, args, metadata, fp).Success?
    ensures |BindPrefix(params, n, flags, args, metadata, fp).value.values| == n
    ensures Step(params[i], flags, args, metadata, BindPrefix(params, i, flags, args, metadata, fp).value.at, fp)
            == Success((BindPrefix(params, n, flags, args, metadata, fp).value.values[i],
                        BindPrefix(params, i + 1, flags, args, metadata, fp).value.at))
    decreases n
  {
    PrefixCursors(params, n, flags, args, metadata, fp);
    if i < n - 1 {
      PrefixStep(params, i, n - 1, flags, args, metadata, fp);
      PrefixCursors(params, n - 1, flags, args, metadata, fp);
      var before := BindPrefix(params, n - 1, flags, args, metadata, fp).value;
      assert BindPrefix(params, n, flags, args, metadata, fp).value.values[i] == before.values[i];
    }
  }

  /**
   * What each slot of a successful parse holds: a flag slot whether its
   * names were given; the k-th Meta slot the k-th metadata object, or its
   * missing value; the k-th positional slot the k-th argument parsed to its
   * type, every remaining argument for an array, or its missing value when
   * the arguments have run out.
   */
  lemma Slots(params: seq<ParamSpec>, flags: seq<string>, args: seq<string>,
              metadata: seq<Value>, fp: TypeParser.FloatParsers, i: nat)
    requires i < |params| && BindSpec(params, flags, args, metadata, fp).Success?
    ensures var vals := BindSpec(params, flags, args, metadata, fp).value;
            var p := params[i];
            var m := MetaCount(params[..i]);
            var k := PositionalCount(params[..i]);
            |vals| == |params| &&
            (p.role.Flag? ==> vals[i] == BoolV(FlagValue(p.role.trigger, p.role.alternative, flags))) &&
            (p.role.Meta? && m < |metadata| ==> vals[i] == metadata[m]) &&
            (p.role.Meta? && m >= |metadata| ==> MissingValue(p, fp) == Success(vals[i])) &&
            (IsPositional(p) && k >= |args| ==> MissingValue(p, fp) == Success(vals[i])) &&
            (IsPositional(p) && k < |args| && !p.kind.Array? ==>
               TypeParser.ParseType(p.kind, args[k], fp) == Success(vals[i])) &&
            (IsPositional(p) && k < |args| && p.kind.Array? ==>
               vals[i].ArrayV? && CoerceAll(p.kind.elem, args[k..], fp) == Success(vals[i].elems))
  {
    PrefixCursors(params, |params|, flags, args, metadata, fp);
    PrefixStep(params, i, |params|, flags, args, metadata, fp);
    PrefixCursors(params, i, flags, args, metadata, fp);
  }

  /** A required Meta or positional parameter with nothing left to take makes parse fail. */
  lemma MissingRequiredFails(params: seq<ParamSpec>, flags: seq<string>, args: seq<string>,
                             metadata: seq<Value>, fp: TypeParser.FloatParsers, i: nat)
    requires i < |params| && params[i].policy.Required?
    requires (params[i].role.Meta? && MetaCount(params[..i]) >= |metadata|) ||
             (IsPositional(params[i]) && PositionalCount(params[..i]) >= |args|)
    ensures BindSpec(params, flags, args, metadata, fp).Failure?
  {
    if BindSpec(params, flags, args, metadata, fp).Success? {
      Slots(params, flags, args, metadata, fp, i);
    }
  }

  /** Without an array parameter, more arguments than positional parameters make parse fail. */
  lemma SurplusRejected(params: seq<ParamSpec>, flags: seq<string>, args: seq<string>,
                        metadata: seq<Value>, fp: TypeParser.FloatParsers)
    requires !HasArrayPositional(params) && |args| > PositionalCount(params)
    ensures BindSpec(params, flags, args, metadata, fp).Failure?
    ensures BindPrefix(params, |params|, flags, args, metadata, fp).Success? ==>
              BindSpec(params, flags, args, metadata, fp) == Failure(MalformedCommand)
  {
    if BindPrefix(params, |params|, flags, args, metadata, fp).Success? {
      PrefixCursors(params, |params|, flags, args, metadata, fp);
      assert params[..|params|] == params;
    }
  }

  /** A positional array parameter is counted among the positional ones. */
  lemma {:induction false} ArrayIsCounted(ps: seq<ParamSpec>)
    requires HasArrayPositional(ps)
    ensures PositionalCount(ps) >= 1
  {
    var last := ps[|ps| - 1];
    if !(IsPositional(last) && last.kind.Array?) {
      var i :| 0 <= i < |ps| && IsPositional(ps[i]) && ps[i].kind.Array?;
      assert ps[..|ps| - 1][i] == ps[i];
      ArrayIsCounted(ps[..|ps| - 1]);
    }
  }

  /**
   * Once an array has been bound without taking arguments, the argument
   * cursor stays past the end of the arguments.
   */
  predicate ArrayCursor(ps: seq<ParamSpec>, args: seq<string>, at: Cursors) {
    HasArrayPositional(ps) && at.cmdIndex != -1 ==> at.cmdIndex > |args|
  }

  lemma ArrayCursorStep(ps: seq<ParamSpec>, p: ParamSpec, flags: seq<string>, args: seq<string>,
                        metadata: seq<Value>, c: Cursors, fp: TypeParser.FloatParsers)
    requires ArrayCursor(ps, args, c) && Step(p, flags, args, metadata, c, fp).Success?
    ensures ArrayCursor(ps + [p], args, Step(p, flags, args, metadata, c, fp).value.1)
  {
    var ps' := ps + [p];
    assert ps'[..|ps|] == ps && ps'[|ps|] == p;
    if HasArrayPositional(ps') && !(IsPositional(p) && p.kind.Array?) {
      var i :| 0 <= i < |ps'| && IsPositional(ps'[i]) && ps'[i].kind.Array?;
      assert ps[i] == ps'[i];
    }
  }

  lemma {:induction false} PrefixArrayCursor(params: seq<ParamSpec>, n: nat, flags: seq<string>, args: seq<string>,
                                             metadata: seq<Value>, fp: TypeParser.FloatParsers)
    requires n <= |params| && BindPrefix(params, n, flags, args, metadata, fp).Success?
    ensures ArrayCursor(params[..n], args, BindPrefix(params, n, flags, args, metadata, fp).value.at)
  {
    if n > 0 {
      PrefixArrayCursor(params, n - 1, flags, args, metadata, fp);
      assert params[..n] == params[..n - 1] + [params[n - 1]];
      var c := BindPrefix(params, n - 1, flags, args, metadata, fp).value.at;
      ArrayCursorStep(params[..n - 1], params[n - 1], flags, args, metadata, c, fp);
    }
  }

  /**
   * Once every slot is bound, the surplus test rejects the command exactly
   * when there is no array parameter and more arguments than positional
   * parameters: an array absorbs every surplus argument.
   */
  lemma SurplusTest(params: seq<ParamSpec>, flags: seq<string>, args: seq<string>,
                    metadata: seq<Value>, fp: TypeParser.FloatParsers)
    requires BindPrefix(params, |params|, flags, args, metadata, fp).Success?
    ensures BindSpec(params, flags, args, metadata, fp).Failure? <==>
              !HasArrayPositional(params) && |args| > PositionalCount(params)
    ensures BindSpec(params, flags, args, metadata, fp).Failure? ==>
              BindSpec(params, flags, args, metadata, fp).error == MalformedCommand
  {
    PrefixCursors(params, |params|, flags, args, metadata, fp);
    PrefixArrayCursor(params, |params|, flags, args, metadata, fp);
    assert params[..|params|] == params;
    if HasArrayPositional(params) {
      ArrayIsCounted(params);
    }
  }

  /**
   * A command line without arguments: a missing @Optional int binds 0, and a
   * missing @DefaultValue("5") int binds 5.
   */
  lemma MissingSlotExamples(fp: TypeParser.FloatParsers)
    ensures BindSpec([ParamSpec(Int, Positional, Optional, None)], [], [], [], fp) == Success([IntV(0)])
    ensures BindSpec([ParamSpec(Int, Positional, Default("5"), None)], [], [], [], fp) == Success([IntV(5)])
  {
    TypeParser.NonCanonicalDecimals();
    assert TypeParser.ToInt("5") == Success(IntV(5)) by {
      TypeParser.DecimalRoundTrip(5);
      assert TypeParser.DecimalString(5) == "5";
    }
    MissingSlot(ParamSpec(Int, Positional, Optional, None), IntV(0), fp);
    MissingSlot(ParamSpec(Int, Positional, Default("5"), None), IntV(5), fp);
  }

  /** A lone positional slot with no argument binds its missing value. */
  lemma MissingSlot(p: ParamSpec, v: Value, fp: TypeParser.FloatParsers)
    requires IsPositional(p) && MissingValue(p, fp) == Success(v)
    ensures BindSpec([p], [], [], [], fp) == Success([v])
  {
    var ps, none, nothing := [p], [], [];
    assert ps[..0] == [] && ps[0] == p;
    assert ArgumentSpec(p, none, 0, fp) == Success(Taken(v, 1));
    assert Step(p, none, none, nothing, Cursors(0, 0), fp) == Success((v, Cursors(1, 0)));
    var start := BindPrefix(ps, 0, none, none, nothing, fp);
    assert start == Success(Progress([], Cursors(0, 0)));
    assert start.value.values + [v] == [v];
    assert BindPrefix(ps, 1, none, none, nothing, fp) == Success(Progress([v], Cursors(1, 0)));
    assert PositionalCount(ps) == 1 by { assert ps[..0] == []; }
  }

  /** Only whether each name is listed matters: order and repetition of flags do not. */
  lemma {:induction false} FlagsAsSet(params: seq<ParamSpec>, n: nat, f1: seq<string>, f2: seq<string>, args: seq<string>,
                                      metadata: seq<Value>, fp: TypeParser.FloatParsers)
    requires n <= |params| && forall x :: x in f1 <==> x in f2
    ensures BindPrefix(params, n, f1, args, metadata, fp) == BindPrefix(params, n, f2, args, metadata, fp)
  {
    if n > 0 {
      FlagsAsSet(params, n - 1, f1, f2, args, metadata, fp);
    }
  }

  /** Binding is a function of the set of active flags. */
  lemma BindFlagsAsSet(params: seq<ParamSpec>, f1: seq<string>, f2: seq<string>, args: seq<string>,
                       metadata: seq<Value>, fp: TypeParser.FloatParsers)
    requires forall x :: x in f1 <==> x in f2
    ensures BindSpec(params, f1, args, metadata, fp) == BindSpec(params, f2, args, metadata, fp)
  {
    FlagsAsSet(params, |params|, f1, f2, args, metadata, fp);
  }
}
