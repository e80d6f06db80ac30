/**
 * The Python values the modelled code handles: the tree a JSON or YAML parser
 * produces, plus instances of user classes (whose `__dict__` is kept as an
 * ordered dictionary), with `type()`, `isinstance`, truthiness, `len` and `==`.
 */
module PyValue {
  import opened Outcomes

  datatype Value =
    | VNone
    | VBool(b: bool)
    | VInt(i: int)
    /** A finite `float`; infinities and NaN are not modelled. */
    | VFloat(r: real)
    | VStr(s: string)
    | VList(items: seq<Value>)
    | VDict(entries: seq<(string, Value)>)
    /** An instance of the user class `cls`; `attrs` is its instance `__dict__`. */
    | VObj(cls: string, attrs: seq<(string, Value)>)

  /** The classes that appear as declared types. */
  datatype PyClass = IntT | FloatT | ComplexT | StrT | BoolT | ListT | DictT | NoneT | UserClass(name: string)

  /** The exceptions the modelled code raises.  `NotModelled` marks behaviour outside this model. */
  datatype Exc =
    | ValueError
    | TypeError
    | KeyError(key: string)
    | AssertionError
    | AttributeError(name: string)
    | NameError(name: string)
    | RuntimeError(message: string)
    | IOError(message: string)
    | NotModelled(what: string)

  /** `type(v)`. */
  function ClassOf(v: Value): PyClass {
    match v
    case VNone => NoneT
    case VBool(_) => BoolT
    case VInt(_) => IntT
    case VFloat(_) => FloatT
    case VStr(_) => StrT
    case VList(_) => ListT
    case VDict(_) => DictT
    case VObj(c, _) => UserClass(c)
  }

  /** `isinstance(v, c)`; `bool` is a subclass of `int`, user classes are compared by name. */
  predicate IsInstance(v: Value, c: PyClass) {
    ClassOf(v) == c || (c == IntT && v.VBool?)
  }

  /** `c.__name__`. */
  function ClassName(c: PyClass): string {
    match c
    case IntT => "int"
    case FloatT => "float"
    case ComplexT => "complex"
    case StrT => "str"
    case BoolT => "bool"
    case ListT => "list"
    case DictT => "dict"
    case NoneT => "NoneType"
    case UserClass(n) => n
  }

  /** `bool(v)`: empty containers, zero, "" and None are false; instances of user classes are true. */
  predicate Truthy(v: Value) {
    match v
    case VNone => false
    case VBool(b) => b
    case VInt(i) => i != 0
    case VFloat(r) => r != 0.0
    case VStr(s) => |s| > 0
    case VList(items) => |items| > 0
    case VDict(entries) => |entries| > 0
    case VObj(_, _) => true
  }

  /** `len(v)`; None when `len` raises TypeError. */
  function Len(v: Value): Option<nat> {
    match v
    case VStr(s) => Some(|s|)
    case VList(items) => Some(|items|)
    case VDict(entries) => Some(|entries|)
    case _ => None
  }

  predicate IsNumber(v: Value) {
    v.VBool? || v.VInt? || v.VFloat?
  }

  function NumberValue(v: Value): real
    requires IsNumber(v)
  {
    match v
    case VBool(b) => if b then 1.0 else 0.0
    case VInt(i) => i as real
    case VFloat(r) => r
  }

  /**
   * `a == b`: numbers compare by value across bool/int/float, lists element by
   * element, dictionaries as mappings.  Instances are compared structurally
   * (Python compares them by identity).
   */
  predicate PyEq(a: Value, b: Value)
    decreases a, 2
  {
    if IsNumber(a) || IsNumber(b) then IsNumber(a) && IsNumber(b) && NumberValue(a) == NumberValue(b)
    else match a
      case VNone => b.VNone?
      case VStr(x) => b.VStr? && x == b.s
      case VList(x) => b.VList? && |x| == |b.items| && forall i :: 0 <= i < |x| ==> PyEq(x[i], b.items[i])
      case VDict(x) => b.VDict? && DictEq(a, b)
      case VObj(_, _) => a == b
  }

  /** Equality of two dictionaries as mappings (their keys are distinct). */
  predicate DictEq(a: Value, b: Value)
    requires a.VDict? && b.VDict?
    decreases a, 1
  {
    && |a.entries| == |b.entries|
    && forall i :: 0 <= i < |a.entries| ==> HasEqualEntry(a, i, b)
  }

  predicate HasEqualEntry(a: Value, i: nat, b: Value)
    requires a.VDict? && b.VDict? && i < |a.entries|
    decreases a, 0
  {
    exists j :: 0 <= j < |b.entries| && b.entries[j].0 == a.entries[i].0 && PyEq(a.entries[i].1, b.entries[j].1)
  }

  /** Lists and dictionaries are unhashable; everything else here is hashable. */
  predicate Hashable(v: Value) {
    !v.VList? && !v.VDict?
  }

  /** A value holding no instance of a user class anywhere: plain data, as JSON has. */
  predicate IsData(v: Value)
    decreases v
  {
    match v
    case VList(items) => forall i :: 0 <= i < |items| ==> IsData(items[i])
    case VDict(entries) => forall i :: 0 <= i < |entries| ==> IsData(entries[i].1)
    case VObj(_, _) => false
    case _ => true
  }

  lemma InstanceOfOwnClass(v: Value)
    ensures IsInstance(v, ClassOf(v))
  {
  }

  lemma {:induction false} PyEqReflexive(v: Value)
    ensures PyEq(v, v)
    decreases v
  {
    match v
    case VList(items) =>
      forall i | 0 <= i < |items| ensures PyEq(items[i], items[i]) {
        PyEqReflexive(items[i]);
      }
    case VDict(entries) =>
      forall i | 0 <= i < |entries| ensures HasEqualEntry(v, i, v) {
        PyEqReflexive(entries[i].1);
        assert entries[i].0 == entries[i].0 && PyEq(entries[i].1, entries[i].1);
      }
    case _ =>
  }
}
