/**
 * Python's built-in constructors `int(x)`, `float(x)`, `str(x)`, `bool(x)`,
 * `list(x)` and `dict(x)`, which the modelled code applies to list elements
 * and command-line values.  A failed call yields the exception it raises.
 */
module Builtins {
  import opened Outcomes
  import opened Text
  import opened PyValue
  import Assoc

  /** `int(r)` for a float truncates toward zero. */
  function Truncate(r: real): int {
    if r >= 0.0 then r.Floor else -((-r).Floor)
  }

  function Int(v: Value): (r: Result<Value, Exc>)
    ensures r.Ok? ==> r.value.VInt?
    ensures v.VInt? ==> r == Ok(v)
  {
    match v
    case VInt(_) => Ok(v)
    case VBool(b) => Ok(VInt(if b then 1 else 0))
    case VFloat(r) => Ok(VInt(Truncate(r)))
    case VStr(s) =>
      (match ParseInt(s)
       case Parsed(n) => Ok(VInt(n))
       case Malformed => Err(ValueError)
       case NonAsciiText => Err(NotModelled("int() of text holding non-ASCII characters")))
    case _ => Err(TypeError)
  }

  function Float(v: Value): (r: Result<Value, Exc>)
    ensures r.Ok? ==> r.value.VFloat?
    ensures v.VFloat? ==> r == Ok(v)
  {
    match v
    case VFloat(_) => Ok(v)
    case VInt(i) => Ok(VFloat(i as real))
    case VBool(b) => Ok(VFloat(if b then 1.0 else 0.0))
    case VStr(s) =>
      (match ParseInt(s)
       case Parsed(n) => Ok(VFloat(n as real))
       case _ => Err(NotModelled("float() of text that is not an integer literal")))
    case _ => Err(TypeError)
  }

  function Str(v: Value): (r: Result<Value, Exc>)
    ensures r.Ok? ==> r.value.VStr?
    ensures v.VStr? ==> r == Ok(v)
  {
    match v
    case VStr(_) => Ok(v)
    case VInt(i) => Ok(VStr(Decimal(i)))
    case VBool(b) => Ok(VStr(if b then "True" else "False"))
    case VNone => Ok(VStr("None"))
    case _ => Err(NotModelled("str() of a float, list, dict or object"))
  }

  function Bool(v: Value): (r: Result<Value, Exc>)
    ensures r.Ok? ==> r.value.VBool?
    ensures v.VBool? ==> r == Ok(v)
  {
    Ok(VBool(Truthy(v)))
  }

  /** `list(x)`: a copy of a list, the characters of a text, the keys of a dictionary. */
  function List(v: Value): (r: Result<Value, Exc>)
    ensures r.Ok? ==> r.value.VList?
    ensures v.VList? ==> r == Ok(v)
  {
    match v
    case VList(_) => Ok(v)
    case VStr(s) => Ok(VList(seq(|s|, i requires 0 <= i < |s| => VStr([s[i]]))))
    case VDict(e) => Ok(VList(seq(|e|, i requires 0 <= i < |e| => VStr(e[i].0))))
    case _ => Err(TypeError)
  }

  /** One element of `dict(iterable)` must itself be an iterable of exactly two items, the first a key. */
  function Pair(item: Value): Result<(string, Value), Exc> {
    match item
    case VList(xs) =>
      if |xs| != 2 then Err(ValueError)
      else if xs[0].VStr? then Ok((xs[0].s, xs[1]))
      else Err(NotModelled("dictionary keys other than text"))
    case VStr(s) => if |s| != 2 then Err(ValueError) else Ok(([s[0]], VStr([s[1]])))
    case VDict(e) => if |e| != 2 then Err(ValueError) else Ok((e[0].0, VStr(e[1].0)))
    case _ => Err(TypeError)
  }

  function Pairs(items: seq<Value>): Result<Assoc.Dict<Value>, Exc> {
    if |items| == 0 then Ok([])
    else
      var front :- Pairs(items[..|items| - 1]);
      var p :- Pair(items[|items| - 1]);
      Ok(Assoc.Put(front, p.0, p.1))
  }

  /** `dict(x)`: a copy of a dictionary, or the pairs of an iterable, a later pair winning. */
  function Dict(v: Value): (r: Result<Value, Exc>)
    ensures r.Ok? ==> r.value.VDict?
    ensures v.VDict? ==> r == Ok(v)
  {
    match v
    case VDict(_) => Ok(v)
    case VList(items) =>
      var d :- Pairs(items);
      Ok(VDict(d))
    case VStr(s) =>
      if |s| == 0 then Ok(VDict([]))
      else Err(ValueError)
    case _ => Err(TypeError)
  }

  /**
   * `c(v)` for a built-in class `c`.  Calling `NoneType` raises TypeError;
   * complex numbers and user classes are outside this function.
   */
  function Call(c: PyClass, v: Value): (r: Result<Value, Exc>)
    ensures r.Ok? ==> ClassOf(r.value) == c
    ensures ClassOf(v) == c && c != ComplexT && c != NoneT && !c.UserClass? ==> r == Ok(v)
  {
    match c
    case IntT => Int(v)
    case FloatT => Float(v)
    case StrT => Str(v)
    case BoolT => Bool(v)
    case ListT => List(v)
    case DictT => Dict(v)
    case NoneT => Err(TypeError)
    case ComplexT => Err(NotModelled("complex numbers"))
    case UserClass(_) => Err(NotModelled("constructors of user classes"))
  }

  /** `str(n)` then `int(...)` gives `n` back. */
  lemma IntOfStr(n: int)
    ensures Str(VInt(n)).Ok? && Int(Str(VInt(n)).value) == Ok(VInt(n))
  {
    StrOfInt(n);
    ParseDecimal(n);
    IntOfParsed(Decimal(n), n);
  }

  /** `str(n)` of an integer is its decimal text. */
  lemma StrOfInt(n: int)
    ensures Str(VInt(n)) == Ok(VStr(Decimal(n)))
  {
  }

  /** `int(text)` of a text that reads as `n` is `n`. */
  lemma IntOfParsed(text: string, n: int)
    requires ParseInt(text) == Parsed(n)
    ensures Int(VStr(text)) == Ok(VInt(n))
  {
  }
}
