/**
 * The parameter rules that EasyEngine.register enforces before it accepts a
 * @Command method.
 */
module Registration {
  import opened Outcomes
  import opened Params
  import TypeParser
  import Binder

  /**
   * A parameter list register accepts: every non-Meta parameter has a
   * supported type, every flag is a boolean, an array positional is the last
   * positional, and no required positional follows an optional one.
   */
  predicate WellFormedUpTo(ps: seq<ParamSpec>, n: nat)
    requires n <= |ps|
  {
    (forall i :: 0 <= i < n && !ps[i].role.Meta? ==> TypeParser.IsValidType(ps[i].kind)) &&
    (forall i :: 0 <= i < n && ps[i].role.Flag? ==> ps[i].kind == Bool) &&
    (forall i, j :: 0 <= i < j < n && IsPositional(ps[i]) && IsPositional(ps[j]) ==>
                      !ps[i].kind.Array? && (IsOptional(ps[i]) ==> IsOptional(ps[j])))
  }

  predicate WellFormed(ps: seq<ParamSpec>) {
    WellFormedUpTo(ps, |ps|)
  }

  /** The checking loop of register, with its `hasArray` and `hasOptionals` flags. */
  method ValidateParams(ps: seq<ParamSpec>) returns (ok: bool)
    ensures ok == WellFormed(ps)
  {
    var hasOptionals := false;
    var hasArray := false;
    ghost var last := -1;  // the latest positional parameter seen
    for i := 0 to |ps|
      invariant -1 <= last < i
      invariant WellFormedUpTo(ps, i)
      invariant last >= 0 ==> IsPositional(ps[last])
      invariant forall k :: last < k < i ==> !IsPositional(ps[k])
      invariant hasArray == (last >= 0 && ps[last].kind.Array?)
      invariant hasOptionals == (last >= 0 && IsOptional(ps[last]))
    {
      var par := ps[i];
      if par.role.Meta? {
        continue;
      }
      if !TypeParser.IsValidType(par.kind) {
        return false;
      }
      if par.role.Flag? {
        if par.kind != Bool {
          return false;
        }
        continue;
      }
      if hasArray {
        assert !(IsPositional(ps[last]) && IsPositional(ps[i]) ==> !ps[last].kind.Array?);
        return false;
      }
      hasArray := par.kind.Array?;
      var isOptional := IsOptional(par);
      if hasOptionals && !isOptional {
        assert !(IsPositional(ps[last]) && IsPositional(ps[i]) ==> (IsOptional(ps[last]) ==> IsOptional(ps[i])));
        return false;
      }
      hasOptionals := isOptional;
      last := i;
    }
    return true;
  }

  /**
   * For an accepted parameter list the argument cursor is never read at -1:
   * binding fails for a missing, malformed or surplus argument, never with
   * an index error.
   */
  lemma {:induction false} NoIndexError(ps: seq<ParamSpec>, n: nat, flags: seq<string>, args: seq<string>,
                                        metadata: seq<Value>, fp: TypeParser.FloatParsers)
    requires WellFormed(ps) && n <= |ps|
    ensures Binder.BindPrefix(ps, n, flags, args, metadata, fp) != Failure(IndexOutOfBounds)
  {
    if n > 0 {
      NoIndexError(ps, n - 1, flags, args, metadata, fp);
      var before := Binder.BindPrefix(ps, n - 1, flags, args, metadata, fp);
      if before.Success? && IsPositional(ps[n - 1]) {
        Binder.PrefixCursors(ps, n - 1, flags, args, metadata, fp);
        var c := before.value.at.cmdIndex;
        if ps[n - 1].kind.Array? && 0 <= c < |args| {
          Binder.CoerceAllMeaning(ps[n - 1].kind.elem, args[c..], fp);
        }
      }
    }
  }

  lemma BindNoIndexError(ps: seq<ParamSpec>, flags: seq<string>, args: seq<string>,
                         metadata: seq<Value>, fp: TypeParser.FloatParsers)
    requires WellFormed(ps)
    ensures Binder.BindSpec(ps, flags, args, metadata, fp) != Failure(IndexOutOfBounds)
  {
    NoIndexError(ps, |ps|, flags, args, metadata, fp);
  }
}
