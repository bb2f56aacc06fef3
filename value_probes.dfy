/**
 * How `urlparse_json` types one query parameter from its list of values:
 * several values make an array; a single value is probed with `float()`, then
 * with `int()`, then compared with the two boolean literals, each successful
 * probe overriding the previous one.
 */
module ValueProbes {
  import opened Wrappers
  import opened Strings

  datatype ParamType = StringType | ArrayType | NumberType | IntegerType | BooleanType

  /** The schema `type` string the document carries for each parameter type. */
  function TypeName(t: ParamType): string
  {
    match t
    case StringType => "string"
    case ArrayType => "array"
    case NumberType => "number"
    case IntegerType => "integer"
    case BooleanType => "boolean"
  }

  /**
   * An example value: text, a float (kept as the literal that `float()`
   * accepted), or the integer `int()` produced.
   */
  datatype Example = Text(text: string) | Float(literal: string) | Int(value: int)

  /** The `{type, example}` record kept for one parameter. */
  datatype ParamInfo = ParamInfo(paramType: ParamType, example: Example)

  predicate IsDigits(s: string)
  {
    |s| > 0 && forall i :: 0 <= i < |s| ==> IsDigit(s[i])
  }

  /** The text after an optional leading sign. */
  function Unsigned(s: string): (r: string)
    ensures |r| <= |s|
  {
    if |s| > 0 && (s[0] == '+' || s[0] == '-') then s[1..] else s
  }

  /** What `int()` accepts: an optional sign and decimal digits. */
  predicate IsIntLiteral(s: string)
    ensures IsIntLiteral(s) ==> |s| > 0 && IsDigit(s[|s| - 1])
    ensures IsIntLiteral(s) ==> forall i :: 0 < i < |s| ==> IsDigit(s[i])
  {
    IsDigits(Unsigned(s))
  }

  function DigitsValue(ds: string): (v: int)
    ensures (forall i :: 0 <= i < |ds| ==> IsDigit(ds[i])) ==> v >= 0
  {
    if |ds| == 0 then 0
    else DigitsValue(ds[..|ds| - 1]) * 10 + (ds[|ds| - 1] as int - '0' as int)
  }

  /** The integer `int(s)` returns. */
  function IntValue(s: string): (n: int)
    requires IsIntLiteral(s)
    ensures s[0] == '-' ==> n <= 0
    ensures s[0] != '-' ==> n >= 0
  {
    if s[0] == '-' then -DigitsValue(Unsigned(s)) else DigitsValue(Unsigned(s))
  }

  /** Digits with at most one `.`, holding at least one digit (`1`, `1.`, `.5`, `1.5`). */
  predicate IsMantissa(m: string)
  {
    match IndexOf(m, '.')
    case None => IsDigits(m)
    case Some(i) =>
      |m| >= 2 && (i == 0 || IsDigits(m[..i])) && (i + 1 == |m| || IsDigits(m[i + 1..]))
  }

  /** A decimal floating-point literal with an optional exponent. */
  predicate IsDecimalLiteral(u: string)
  {
    match IndexOfAny(u, {'e', 'E'})
    case None => IsMantissa(u)
    case Some(i) => IsMantissa(u[..i]) && IsIntLiteral(u[i + 1..])
  }

  /** What `float()` accepts: a signed decimal literal, or `inf`, `infinity` or `nan` in any case. */
  predicate IsFloatLiteral(s: string)
    ensures IsFloatLiteral(s) ==>
              var u := Unsigned(s); |u| > 0 && (IsDigit(u[0]) || u[0] in {'.', 'i', 'I', 'n', 'N'})
  {
    var u := Unsigned(s);
    FloatLiteralStart(u);
    IsDecimalLiteral(u) || Lower(u) in {"inf", "infinity", "nan"}
  }

  /** Only a digit, a `.`, or the first letter of `inf` or `nan` can open a float literal. */
  lemma FloatLiteralStart(u: string)
    ensures IsDecimalLiteral(u) || Lower(u) in {"inf", "infinity", "nan"} ==>
              |u| > 0 && (IsDigit(u[0]) || u[0] in {'.', 'i', 'I', 'n', 'N'})
  {
    if |u| > 0 && !IsDigit(u[0]) && u[0] !in {'.', 'i', 'I', 'n', 'N'} {
      if u[0] == 'e' || u[0] == 'E' {
        assert IndexOfAny(u, {'e', 'E'}) == Some(0);
        assert u[..0] == "";
      } else {
        NotDecimalFromFirst(u);
      }
      assert LowerChar(u[0]) != 'i' && LowerChar(u[0]) != 'n';
    }
  }

  /** Every string `int()` accepts is also accepted by `float()`. */
  lemma IntLiteralIsFloatLiteral(s: string)
    requires IsIntLiteral(s)
    ensures IsFloatLiteral(s)
  {
    var u := Unsigned(s);
    assert IndexOfAny(u, {'e', 'E'}) == None;
    assert IndexOf(u, '.') == None;
  }

  /** A literal that starts with a letter other than `e`/`E` is not decimal. */
  lemma NotDecimalFromFirst(u: string)
    requires |u| > 0 && !IsDigit(u[0]) && u[0] != '.' && u[0] != 'e' && u[0] != 'E'
    ensures !IsDecimalLiteral(u)
  {
    match IndexOfAny(u, {'e', 'E'})
    case None =>
    case Some(i) =>
      assert i > 0;
      assert u[..i][0] == u[0];
  }

  /** Neither boolean literal is a number. */
  lemma BooleanIsNotNumber(s: string)
    requires s == "true" || s == "false"
    ensures !IsFloatLiteral(s) && !IsIntLiteral(s)
  {
    assert Unsigned(s) == s;
    assert !IsDigit(s[0]);
    NotDecimalFromFirst(s);
    assert Lower(s) == s;
  }

  /**
   * The type and example of a query parameter with the given values, probed
   * in the order the source probes them.
   */
  function InferParam(item: seq<string>): (r: ParamInfo)
    ensures |item| > 1 ==> r == ParamInfo(ArrayType, Text(Join(item, ",")))
    ensures |item| == 1 && IsIntLiteral(item[0]) ==> r == ParamInfo(IntegerType, Int(IntValue(item[0])))
    ensures |item| == 1 && IsFloatLiteral(item[0]) && !IsIntLiteral(item[0]) ==> r == ParamInfo(NumberType, Float(item[0]))
    ensures |item| == 1 && (item[0] == "true" || item[0] == "false") ==> r == ParamInfo(BooleanType, Text(item[0]))
    ensures |item| == 1 && !IsFloatLiteral(item[0]) && item[0] != "true" && item[0] != "false" ==> r == ParamInfo(StringType, Text(item[0]))
    ensures |item| == 0 ==> r == ParamInfo(StringType, Text(""))
  {
    if |item| > 1 then ParamInfo(ArrayType, Text(Join(item, ",")))
    else if |item| == 1 then
      var v := item[0];
      var asFloat := if IsFloatLiteral(v) then ParamInfo(NumberType, Float(v)) else ParamInfo(StringType, Text(v));
      var asInt := if IsIntLiteral(v) then ParamInfo(IntegerType, Int(IntValue(v))) else asFloat;
      if v == "true" || v == "false" then
        BooleanIsNotNumber(v);
        ParamInfo(BooleanType, asInt.example)
      else asInt
    else ParamInfo(StringType, Text(""))
  }

  /** An array example splits back into the values when none of them holds a comma. */
  lemma ArrayExampleSplits(item: seq<string>)
    requires |item| > 1
    requires forall i :: 0 <= i < |item| ==> ',' !in item[i]
    ensures Split(InferParam(item).example.text, ',') == item
  {
    SplitJoin(item, ',');
  }

  // ----- Decimal rendering, the inverse of `int()` -----

  function DigitChar(d: nat): (c: char)
    requires d < 10
    ensures IsDigit(c) && c as int - '0' as int == d
  {
    ('0' as int + d) as char
  }

  function ShowNat(n: nat): (s: string)
    ensures IsDigits(s)
  {
    if n < 10 then [DigitChar(n)] else ShowNat(n / 10) + [DigitChar(n % 10)]
  }

  /** `str(n)`. */
  function Show(n: int): string
  {
    if n < 0 then "-" + ShowNat(-n) else ShowNat(n)
  }

  lemma {:induction false} DigitsValueShowNat(n: nat)
    ensures DigitsValue(ShowNat(n)) == n
  {
    if n >= 10 {
      var s := ShowNat(n);
      assert s[..|s| - 1] == ShowNat(n / 10);
      DigitsValueShowNat(n / 10);
    }
  }

  /** `int(str(n)) == n` for every integer. */
  lemma IntValueShow(n: int)
    ensures IsIntLiteral(Show(n)) && IntValue(Show(n)) == n
  {
    if n < 0 {
      assert Unsigned(Show(n)) == ShowNat(-n);
      DigitsValueShowNat(-n);
    } else {
      var s := ShowNat(n);
      assert IsDigit(s[0]);
      assert Unsigned(s) == s;
      DigitsValueShowNat(n);
    }
  }
}
