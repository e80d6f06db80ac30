/**
 * The value conversion both argument parsers share
 * (`__convert_value_to_type`): a list from text is the text split on commas,
 * a flag from the empty text is true, anything else goes through the type's
 * constructor.
 */
module ArgumentConversion {
  import opened Outcomes
  import opened Text
  import opened PyValue
  import Builtins

  /** The types a positional argument may have. */
  const PositionalTypes: seq<PyClass> := [IntT, StrT, FloatT, ListT]

  /** The types a named argument may have. */
  const NamedTypes: seq<PyClass> := PositionalTypes + [BoolT]

  /** The texts of `s.split(",")` as list elements. */
  function CommaList(s: string): (r: Value)
    ensures r.VList? && |r.items| == |Split(s, ",")|
    ensures forall i :: 0 <= i < |r.items| ==> r.items[i] == VStr(Split(s, ",")[i])
  {
    var parts := Split(s, ",");
    VList(seq(|parts|, i requires 0 <= i < |parts| => VStr(parts[i])))
  }

  /** `__convert_value_to_type(value, t)`; `len` of a value without a length raises TypeError. */
  function Convert(value: Value, t: PyClass): (r: Result<Value, Exc>)
    ensures r.Ok? ==> ClassOf(r.value) == t
    ensures t == ListT && value.VStr? ==> r == Ok(CommaList(value.s))
    ensures t == BoolT && value == VStr("") ==> r == Ok(VBool(true))
    ensures t == BoolT && Len(value).None? ==> r == Err(TypeError)
    ensures t == BoolT && Len(value).Some? && Len(value).value > 0 ==> r == Builtins.Call(BoolT, value)
    ensures t == ListT && !value.VStr? ==> r == Builtins.Call(ListT, value)
    ensures t != ListT && t != BoolT ==> r == Builtins.Call(t, value)
  {
    if t == ListT && value.VStr? then Ok(CommaList(value.s))
    else if t == BoolT then
      match Len(value)
      case None => Err(TypeError)
      case Some(n) => if n == 0 then Ok(VBool(true)) else Builtins.Call(BoolT, value)
    else Builtins.Call(t, value)
  }

  /** A list read from the command line joins back to the text it came from. */
  lemma CommaListJoins(s: string)
    ensures var r := Convert(VStr(s), ListT);
            r.Ok? && r.value.VList? && Join(Texts(r.value.items), ",") == s
  {
    var r := CommaList(s);
    assert Texts(r.items) == Split(s, ",");
    JoinSplit(s, ",");
  }

  /** The texts of a list of texts. */
  function Texts(items: seq<Value>): (r: seq<string>)
    ensures |r| == |items|
    ensures forall i :: 0 <= i < |items| && items[i].VStr? ==> r[i] == items[i].s
  {
    seq(|items|, i requires 0 <= i < |items| => if items[i].VStr? then items[i].s else "")
  }

  /** Every text is a true flag: `bool("false")` is true as well. */
  lemma EveryTextIsTrue(s: string)
    ensures Convert(VStr(s), BoolT) == Ok(VBool(true))
  {
  }

  /** An integer written in decimal is read back as itself. */
  lemma IntegersReadBack(n: int)
    ensures Convert(VStr(Decimal(n)), IntT) == Ok(VInt(n))
  {
    Builtins.IntOfStr(n);
  }

  /** A value already of the argument's type (other than text for a list or a flag) is kept. */
  lemma ConvertKeepsOwnType(value: Value, t: PyClass)
    requires ClassOf(value) == t && t in NamedTypes && t != BoolT
    ensures Convert(value, t) == Ok(value)
  {
  }
}
