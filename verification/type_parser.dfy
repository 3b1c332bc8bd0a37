/** The scalar type-coercion layer (TypeParser.java). */
module TypeParser {
  import opened Outcomes
  import opened Params
  import opened Text

  /**
   * Float.parseFloat and Double.parseDouble. Floating-point literal syntax and
   * rounding are not part of this model: every result below holds for any pair
   * of parsers, and None stands for NumberFormatException.
   */
  datatype FloatParsers = FloatParsers(toFloat: string -> Option<real>, toDouble: string -> Option<real>)

  /** The supported non-array types. */
  predicate IsScalar(k: Kind) {
    k.Int? || k.Long? || k.Float? || k.Double? || k.Bool? || k.Char? || k.Str? || k.Enum?
  }

  /** isValidType: a supported scalar, or a one-dimensional array of one. */
  function IsValidType(k: Kind): (r: bool)
    ensures r <==> IsScalar(k) || (k.Array? && IsScalar(k.elem))
  {
    match k
    case Array(e) => IsValidType(e) && !e.Array?
    case Other(_) => false
    case _ => true
  }

  /** The Java primitive types; every other kind is a reference type. */
  predicate IsPrimitive(k: Kind) {
    k.Int? || k.Long? || k.Float? || k.Double? || k.Bool? || k.Char?
  }

  /** defaultValue: the value injected for an @Optional parameter that was not supplied. */
  function DefaultValue(k: Kind): (v: Value)
    ensures v.Null? <==> !IsPrimitive(k)
    ensures k.Bool? ==> v == BoolV(false)
    ensures k.Int? || k.Long? || k.Char? ==> v == IntV(0)
    ensures k.Float? || k.Double? ==> v == DoubleV(0.0)
  {
    if k.Bool? then BoolV(false)
    else if k.Int? || k.Long? || k.Char? then IntV(0)
    else if k.Float? || k.Double? then DoubleV(0.0)
    else Null
  }

  // ---------------------------------------------------------------------
  // Integer.parseInt and Long.parseLong

  const INT_MIN: int := -0x8000_0000
  const INT_MAX: int := 0x7fff_ffff
  const LONG_MIN: int := -0x8000_0000_0000_0000
  const LONG_MAX: int := 0x7fff_ffff_ffff_ffff

  predicate IsDigit(c: char) {
    '0' <= c <= '9'
  }

  predicate AllDigits(s: string) {
    forall i :: 0 <= i < |s| ==> IsDigit(s[i])
  }

  /** The number a string of decimal digits denotes. */
  function DigitsValue(s: string): nat
    requires AllDigits(s)
  {
    if s == [] then 0 else 10 * DigitsValue(s[..|s| - 1]) + (s[|s| - 1] as int - '0' as int)
  }

  /** An optional `+` or `-` followed by at least one decimal digit, read as an integer. */
  function SignedDecimal(s: string): Option<int> {
    if |s| == 0 then None
    else if s[0] == '-' || s[0] == '+' then
      if |s| >= 2 && AllDigits(s[1..]) then
        Some(if s[0] == '-' then 0 - DigitsValue(s[1..]) else DigitsValue(s[1..]))
      else None
    else if AllDigits(s) then Some(DigitsValue(s))
    else None
  }

  /** Integer.toString for a non-negative number. */
  function NatString(n: nat): (r: string)
    ensures |r| >= 1
  {
    if n < 10 then [('0' as int + n) as char]
    else NatString(n / 10) + [('0' as int + n % 10) as char]
  }

  /** Integer.toString / Long.toString. */
  function DecimalString(n: int): string {
    if n < 0 then "-" + NatString(-n) else NatString(n)
  }

  /** toInt: NumberFormatException unless `s` is a signed decimal within 32 bits. */
  function ToInt(s: string): (r: Result<Value>)
    ensures r.Success? ==> r.value.IntV? && INT_MIN <= r.value.i <= INT_MAX
    ensures r.Failure? ==> r.error == NumberFormat
    ensures r.Success? <==> SignedDecimal(s).Some? && INT_MIN <= SignedDecimal(s).value <= INT_MAX
    ensures r.Success? ==> r.value.i == SignedDecimal(s).value
  {
    match SignedDecimal(s)
    case Some(n) => if INT_MIN <= n <= INT_MAX then Success(IntV(n)) else Failure(NumberFormat)
    case None => Failure(NumberFormat)
  }

  /** toLong: NumberFormatException unless `s` is a signed decimal within 64 bits. */
  function ToLong(s: string): (r: Result<Value>)
    ensures r.Success? ==> r.value.LongV? && LONG_MIN <= r.value.l <= LONG_MAX
    ensures r.Failure? ==> r.error == NumberFormat
    ensures r.Success? <==> SignedDecimal(s).Some? && LONG_MIN <= SignedDecimal(s).value <= LONG_MAX
    ensures r.Success? ==> r.value.l == SignedDecimal(s).value
  {
    match SignedDecimal(s)
    case Some(n) => if LONG_MIN <= n <= LONG_MAX then Success(LongV(n)) else Failure(NumberFormat)
    case None => Failure(NumberFormat)
  }

  /** A sign, leading zeros and a negative zero are all read as the number written. */
  lemma NonCanonicalDecimals()
    ensures ToInt("+5") == Success(IntV(5))
    ensures ToInt("007") == Success(IntV(7))
    ensures ToInt("-0") == Success(IntV(0))
    ensures ToLong("+5") == Success(LongV(5))
  {
    assert DigitsValue("5") == 5 by { assert "5"[..0] == ""; }
    assert DigitsValue("0") == 0 by { assert "0"[..0] == ""; }
    assert "007"[..2] == "00" && "00"[..1] == "0";
    assert "+5"[1..] == "5" && "-0"[1..] == "0";
  }

  lemma {:induction false} NatStringDigits(n: nat)
    ensures AllDigits(NatString(n)) && DigitsValue(NatString(n)) == n
  {
    var s := NatString(n);
    if n >= 10 {
      NatStringDigits(n / 10);
      assert s[..|s| - 1] == NatString(n / 10);
    }
  }

  /** Every integer in range, written in decimal, parses back to itself. */
  lemma DecimalRoundTrip(n: int)
    ensures SignedDecimal(DecimalString(n)) == Some(n)
    ensures INT_MIN <= n <= INT_MAX ==> ToInt(DecimalString(n)) == Success(IntV(n))
    ensures LONG_MIN <= n <= LONG_MAX ==> ToLong(DecimalString(n)) == Success(LongV(n))
  {
    if n < 0 {
      NatStringDigits(-n);
      assert DecimalString(n)[1..] == NatString(-n);
    } else {
      NatStringDigits(n);
      var s := NatString(n);
      assert s[0] != '-' && s[0] != '+' by {
        assert IsDigit(s[0]);
      }
    }
  }

  // ---------------------------------------------------------------------
  // The other scalar parsers

  /** toFloat */
  function ToFloat(s: string, fp: FloatParsers): (r: Result<Value>)
    ensures r.Success? ==> r.value.FloatV?
    ensures r.Failure? ==> r.error == NumberFormat
  {
    match fp.toFloat(s)
    case Some(x) => Success(FloatV(x))
    case None => Failure(NumberFormat)
  }

  /** toDouble */
  function ToDouble(s: string, fp: FloatParsers): (r: Result<Value>)
    ensures r.Success? ==> r.value.DoubleV?
    ensures r.Failure? ==> r.error == NumberFormat
  {
    match fp.toDouble(s)
    case Some(x) => Success(DoubleV(x))
    case None => Failure(NumberFormat)
  }

  /** toChar: the first character; the empty token has none. */
  function ToChar(s: string): (r: Result<Value>)
    ensures r.Success? <==> |s| > 0
    ensures r.Success? ==> r.value == CharV(s[0])
    ensures r.Failure? ==> r.error == ArrayIndexOutOfBounds
  {
    if |s| == 0 then Failure(ArrayIndexOutOfBounds) else Success(CharV(s[0]))
  }

  /** toBool (Boolean.parseBoolean): never fails. */
  function ToBool(s: string): Value {
    BoolV(EqualsIgnoreCase(s, "true"))
  }

  /** The string with every ASCII capital lowered. */
  function LowerString(s: string): (r: string)
    ensures |r| == |s| && forall i :: 0 <= i < |s| ==> r[i] == LowerChar(s[i])
  {
    if s == [] then "" else [LowerChar(s[0])] + LowerString(s[1..])
  }

  /** toBool yields true exactly for the spellings of "true" in any case. */
  lemma ToBoolMeaning(s: string)
    ensures ToBool(s) == BoolV(LowerString(s) == "true")
  {
    if LowerString(s) == "true" {
      assert forall i :: 0 <= i < 4 ==> LowerChar(s[i]) == LowerChar("true"[i]);
    }
  }

  /** The first member at or after `from` whose name equals `s` ignoring case. */
  function FindMember(members: seq<string>, s: string, from: nat): (r: Option<nat>)
    requires from <= |members|
    decreases |members| - from
    ensures r.Some? ==> from <= r.value < |members| && EqualsIgnoreCase(members[r.value], s)
    ensures r.Some? ==> forall j :: from <= j < r.value ==> !EqualsIgnoreCase(members[j], s)
    ensures r.None? ==> forall j :: from <= j < |members| ==> !EqualsIgnoreCase(members[j], s)
  {
    if from == |members| then None
    else if EqualsIgnoreCase(members[from], s) then Some(from)
    else FindMember(members, s, from + 1)
  }

  /** toEnum: the first constant in declaration order whose name matches ignoring case. */
  function ToEnum(members: seq<string>, s: string): (r: Result<Value>)
    ensures r.Failure? <==> forall j :: 0 <= j < |members| ==> !EqualsIgnoreCase(members[j], s)
    ensures r.Failure? ==> r.error == IllegalArgument
    ensures r.Success? ==> r.value.EnumV? && r.value.ordinal < |members|
                           && r.value.name == members[r.value.ordinal]
                           && EqualsIgnoreCase(r.value.name, s)
  {
    match FindMember(members, s, 0)
    case Some(i) => Success(EnumV(i, members[i]))
    case None => Failure(IllegalArgument)
  }

  /** No two constants of the enum differ only in case. */
  predicate CaseDistinct(members: seq<string>) {
    forall i, j :: 0 <= i < j < |members| ==> !EqualsIgnoreCase(members[i], members[j])
  }

  /** Every casing of every constant selects that constant. */
  lemma EnumEveryCasing(members: seq<string>, i: nat, t: string)
    requires i < |members| && CaseDistinct(members)
    requires EqualsIgnoreCase(t, members[i])
    ensures ToEnum(members, t) == Success(EnumV(i, members[i]))
  {
    EqualsIgnoreCaseIsEquivalence(t, members[i], t);
    var j := ToEnum(members, t).value.ordinal;
    EqualsIgnoreCaseIsEquivalence(members[j], t, members[i]);
    assert j <= i;
  }

  // ---------------------------------------------------------------------
  // Dispatch by type

  /** The value `v` is an object of the declared type `k` (null for reference types). */
  predicate HasKind(v: Value, k: Kind) {
    match k
    case Int => v.IntV? && INT_MIN <= v.i <= INT_MAX
    case Long => v.LongV? && LONG_MIN <= v.l <= LONG_MAX
    case Float => v.FloatV?
    case Double => v.DoubleV?
    case Bool => v.BoolV?
    case Char => v.CharV?
    case Str => v.StrV? || v.Null?
    case Enum(_, members) => v.Null? || (v.EnumV? && v.ordinal < |members| && v.name == members[v.ordinal])
    case Array(e) => v.Null? || (v.ArrayV? && forall j :: 0 <= j < |v.elems| ==> HasKind(v.elems[j], e))
    case Other(_) => true
  }

  /**
   * parseType: coerce a token to the declared type. A String is the token
   * itself; an array or unsupported type yields null.
   */
  function ParseType(k: Kind, s: string, fp: FloatParsers): (r: Result<Value>)
    ensures r.Success? ==> HasKind(r.value, k)
    ensures k.Str? ==> r == Success(StrV(s))
    ensures k.Array? || k.Other? ==> r == Success(Null)
    ensures r.Failure? ==> r.error in {NumberFormat, IllegalArgument, ArrayIndexOutOfBounds}
  {
    match k
    case Char => ToChar(s)
    case Int => ToInt(s)
    case Float => ToFloat(s, fp)
    case Double => ToDouble(s, fp)
    case Long => ToLong(s)
    case Str => Success(StrV(s))
    case Bool => Success(ToBool(s))
    case Enum(_, members) => ToEnum(members, s)
    case _ => Success(Null)
  }
}
