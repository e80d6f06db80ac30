/**
 * The older module-argument builder and parser: a single optional positional
 * argument, which must come last, and named arguments read from a
 * configuration.
 */
module ModuleArguments {
  import opened Outcomes
  import opened PyValue
  import opened ArgumentConversion
  import Assoc

  /** A declared argument; `VNone` as the default means there is none. */
  datatype Item = Item(name: string, valueType: PyClass, default: Value)

  predicate HasDefault(it: Item) {
    it.default != VNone
  }

  /** Why an `ArgumentException` is raised. */
  datatype Reason =
    | TypeNotAllowed
    | DefaultOfWrongType
    | DefaultNotLast
    | PositionalCount
    | InvalidValue(name: string)
    | Required(name: string)

  datatype Error = ArgumentError(reason: Reason) | Raised(exc: Exc)

  datatype Builder = Builder(
    args: Assoc.Dict<Item>,
    positional: seq<Item>,
    /** Whether the last positional argument has a default. */
    lastHasDefault: bool)

  const EmptyBuilder := Builder([], [], false)

  /** The `__name__` of a missing type raises AttributeError while the refusal is being worded. */
  function Refuse(valueType: Option<PyClass>): Error {
    if valueType.None? then Raised(AttributeError("__name__")) else ArgumentError(TypeNotAllowed)
  }

  /** `add_argument(name, value_type, help, default)`. */
  function AddArgument(b: Builder, name: string, valueType: Option<PyClass>, default: Value): (r: Result<Builder, Error>)
    ensures r.Ok? <==> valueType.Some? && valueType.value in NamedTypes
                       && (default != VNone ==> IsInstance(default, valueType.value))
    ensures valueType.None? ==> r == Err(Raised(AttributeError("__name__")))
    ensures r.Ok? ==>
      && Assoc.Get(r.value.args, name) == Some(Item(name, valueType.value,
                                                   if valueType.value == BoolT && default == VNone then VBool(false) else default))
      && (forall k :: k != name ==> Assoc.Get(r.value.args, k) == Assoc.Get(b.args, k))
      && r.value.positional == b.positional && r.value.lastHasDefault == b.lastHasDefault
  {
    if valueType.None? || valueType.value !in NamedTypes then Err(Refuse(valueType))
    else
      var t := valueType.value;
      if default != VNone && !IsInstance(default, t) then Err(ArgumentError(DefaultOfWrongType))
      else
        var d := if t == BoolT && default == VNone then VBool(false) else default;
        Ok(b.(args := Assoc.Put(b.args, name, Item(name, t, d))))
  }

  /** `add_default_argument(name, value_type, help, default)`: nothing may follow a positional with a default. */
  function AddPositional(b: Builder, name: string, valueType: Option<PyClass>, default: Value): (r: Result<Builder, Error>)
    ensures r.Ok? <==> valueType.Some? && valueType.value in PositionalTypes && !b.lastHasDefault
                       && (default != VNone ==> IsInstance(default, valueType.value))
    ensures valueType.Some? && valueType.value in PositionalTypes && b.lastHasDefault ==> r == Err(ArgumentError(DefaultNotLast))
    ensures r.Ok? ==> r.value == b.(positional := b.positional + [Item(name, valueType.value, default)],
                                   lastHasDefault := default != VNone)
  {
    if valueType.None? || valueType.value !in PositionalTypes then Err(Refuse(valueType))
    else if b.lastHasDefault then Err(ArgumentError(DefaultNotLast))
    else if default != VNone && !IsInstance(default, valueType.value) then Err(ArgumentError(DefaultOfWrongType))
    else Ok(b.(positional := b.positional + [Item(name, valueType.value, default)], lastHasDefault := default != VNone))
  }

  /** Only the last positional argument may have a default, and the flag says whether it has one. */
  predicate OnlyLastDefault(b: Builder) {
    && (forall i :: 0 <= i < |b.positional| - 1 ==> !HasDefault(b.positional[i]))
    && (b.lastHasDefault <==> |b.positional| > 0 && HasDefault(b.positional[|b.positional| - 1]))
  }

  lemma EmptyHasNoDefault()
    ensures OnlyLastDefault(EmptyBuilder)
  {
  }

  /** Every successful declaration keeps at most one default, on the last positional argument. */
  lemma AddPositionalKeepsOneDefault(b: Builder, name: string, valueType: Option<PyClass>, default: Value)
    requires OnlyLastDefault(b) && AddPositional(b, name, valueType, default).Ok?
    ensures OnlyLastDefault(AddPositional(b, name, valueType, default).value)
  {
    var p := AddPositional(b, name, valueType, default).value.positional;
    assert forall i :: 0 <= i < |b.positional| ==> p[i] == b.positional[i];
  }

  lemma AddArgumentKeepsOneDefault(b: Builder, name: string, valueType: Option<PyClass>, default: Value)
    requires OnlyLastDefault(b) && AddArgument(b, name, valueType, default).Ok?
    ensures OnlyLastDefault(AddArgument(b, name, valueType, default).value)
  {
  }

  /** The count checks of `parse_default_arguments`; true when the count is rejected. */
  predicate BadCount(b: Builder, given: nat) {
    var expected := |b.positional|;
    || (!b.lastHasDefault && expected != given)
    || (b.lastHasDefault && given < expected - 1)
  }

  /** Convert one positional value: TypeError and ValueError are reported as an invalid argument. */
  function ConvertPositional(it: Item, v: Value): (r: Result<Value, Error>)
    ensures match Convert(v, it.valueType)
            case Ok(x) => r == Ok(x)
            case Err(e) => r == Err(if e == TypeError || e == ValueError then ArgumentError(InvalidValue(it.name)) else Raised(e))
  {
    match Convert(v, it.valueType)
    case Ok(x) => Ok(x)
    case Err(e) => Err(if e == TypeError || e == ValueError then ArgumentError(InvalidValue(it.name)) else Raised(e))
  }

  /** The conversion of one value for one declaration. */
  type Conversion = (Item, Value) -> Result<Value, Error>

  /**
   * The loop over the first `n` positional declarations, each value passed
   * through `conv`: the given value, or the default past the end of the list.
   */
  function BindWith(p: seq<Item>, sample: seq<Value>, n: nat, conv: Conversion): Result<Assoc.Dict<Value>, Error>
    requires n <= |p|
  {
    if n == 0 then Ok([])
    else
      var front :- BindWith(p, sample, n - 1, conv);
      var it := p[n - 1];
      var x :- conv(it, Given(p, sample, n - 1));
      Ok(Assoc.Put(front, it.name, x))
  }

  /** The bound names are exactly the names of the declarations the loop went over. */
  lemma {:induction false} BoundNames(p: seq<Item>, sample: seq<Value>, n: nat, conv: Conversion, k: string)
    requires n <= |p| && BindWith(p, sample, n, conv).Ok?
    ensures Assoc.HasKey(BindWith(p, sample, n, conv).value, k) <==> Declares(p, n, k)
  {
    if n > 0 {
      var front := BindWith(p, sample, n - 1, conv);
      BoundNames(p, sample, n - 1, conv, k);
      var x := conv(p[n - 1], Given(p, sample, n - 1)).value;
      assert BindWith(p, sample, n, conv).value == Assoc.Put(front.value, p[n - 1].name, x);
      Assoc.PutHasKeyAt(front.value, p[n - 1].name, x, k);
    }
  }

  /** One of the first `n` declarations is named `k`. */
  predicate Declares(p: seq<Item>, n: nat, k: string)
    requires n <= |p|
  {
    n > 0 && (p[n - 1].name == k || Declares(p, n - 1, k))
  }

  /** The value for the `i`-th positional declaration: the given one, or the default past the end of the list. */
  function Given(p: seq<Item>, sample: seq<Value>, i: nat): Value
    requires i < |p|
  {
    if i < |sample| then sample[i] else p[i].default
  }

  /** The loop of `parse_default_arguments` over the first `n` positional declarations. */
  function BindPositional(p: seq<Item>, sample: seq<Value>, n: nat): Result<Assoc.Dict<Value>, Error>
    requires n <= |p|
  {
    BindWith(p, sample, n, ConvertPositional)
  }

  /** `parse_default_arguments(sample)`; `len(None)` raises TypeError before any check. */
  function ParsePositional(b: Builder, sample: Option<seq<Value>>): (r: Result<Assoc.Dict<Value>, Error>)
    ensures sample.None? ==> r == Err(Raised(TypeError))
    ensures sample.Some? && BadCount(b, |sample.value|) ==> r == Err(ArgumentError(PositionalCount))
    ensures sample.Some? && !BadCount(b, |sample.value|) ==> r == BindPositional(b.positional, sample.value, |b.positional|)
  {
    match sample
    case None => Err(Raised(TypeError))
    case Some(s) =>
      if BadCount(b, |s|) then Err(ArgumentError(PositionalCount))
      else BindPositional(b.positional, s, |b.positional|)
  }

  /**
   * With the builder's invariant, a successful parse was given every
   * positional argument, or all but the defaulted last one; extra values are
   * ignored.
   */
  lemma CountRule(b: Builder, sample: seq<Value>)
    requires OnlyLastDefault(b) && ParsePositional(b, Some(sample)).Ok?
    ensures |sample| >= |b.positional| || (|sample| == |b.positional| - 1 && HasDefault(b.positional[|b.positional| - 1]))
  {
  }

  /** Each positional argument gets its given value converted, or the converted default when the list ends before it. */
  lemma PositionalValues(p: seq<Item>, sample: seq<Value>, n: nat, j: nat)
    requires j < n <= |p| && (forall i :: 0 <= i < |p| ==> p[i].name != p[j].name || i == j)
    requires BindPositional(p, sample, n).Ok?
    ensures var v := if j < |sample| then sample[j] else p[j].default;
            ConvertPositional(p[j], v).Ok? &&
            Assoc.Get(BindPositional(p, sample, n).value, p[j].name) == Some(ConvertPositional(p[j], v).value)
  {
    BoundValues(p, sample, n, j, ConvertPositional);
  }

  /** Whatever the conversion, each declaration is bound under its name to its converted value. */
  lemma {:induction false} BoundValues(p: seq<Item>, sample: seq<Value>, n: nat, j: nat, conv: Conversion)
    requires j < n <= |p| && (forall i :: 0 <= i < |p| ==> p[i].name != p[j].name || i == j)
    requires BindWith(p, sample, n, conv).Ok?
    ensures var v := if j < |sample| then sample[j] else p[j].default;
            conv(p[j], v).Ok? && Assoc.Get(BindWith(p, sample, n, conv).value, p[j].name) == Some(conv(p[j], v).value)
  {
    if j < n - 1 {
      BoundValues(p, sample, n - 1, j, conv);
      assert p[j].name != p[n - 1].name;
    }
  }

  /** Extra positional values change nothing, whatever the conversion. */
  lemma {:induction false} ExtraValuesIgnored(p: seq<Item>, sample: seq<Value>, extra: seq<Value>, n: nat, conv: Conversion)
    requires n <= |p| && n <= |sample|
    ensures BindWith(p, sample + extra, n, conv) == BindWith(p, sample, n, conv)
  {
    if n > 0 {
      ExtraValuesIgnored(p, sample, extra, n - 1, conv);
      assert Given(p, sample + extra, n - 1) == Given(p, sample, n - 1);
      var front := BindWith(p, sample, n - 1, conv);
      var x := conv(p[n - 1], Given(p, sample, n - 1));
      if front.Ok? && x.Ok? {
        var r := Assoc.Put(front.value, p[n - 1].name, x.value);
        assert BindWith(p, sample, n, conv) == Ok(r);
        assert BindWith(p, sample + extra, n, conv) == Ok(r);
      }
    }
  }

  /** The value of one named argument read from the configuration: converted when present (not caught), else its default. */
  function NamedValue(key: string, it: Item, conf: Assoc.Dict<Value>): (r: Result<Value, Error>)
    ensures Assoc.Get(conf, key).None? ==> r == (if HasDefault(it) then Ok(it.default) else Err(ArgumentError(Required(key))))
    ensures Assoc.Get(conf, key).Some? ==>
              r == (match Convert(Assoc.Get(conf, key).value, it.valueType) case Ok(x) => Ok(x) case Err(e) => Err(Raised(e)))
  {
    match Assoc.Get(conf, key)
    case None => if HasDefault(it) then Ok(it.default) else Err(ArgumentError(Required(key)))
    case Some(v) =>
      match Convert(v, it.valueType)
      case Ok(x) => Ok(x)
      case Err(e) => Err(Raised(e))
  }

  /** How the value of one named argument is read. */
  type Reader = (string, Item) -> Result<Value, Error>

  /** Reading from the configuration `conf`. */
  function ReadFrom(conf: Assoc.Dict<Value>): Reader {
    (key: string, it: Item) => NamedValue(key, it, conf)
  }

  /** The loop over the first `n` named declarations, each value read with `read`. */
  function NamedWith(args: Assoc.Dict<Item>, n: nat, read: Reader): (r: Result<Assoc.Dict<Value>, Error>)
    requires n <= |args|
    ensures forall i :: 0 <= i < n && read(args[i].0, args[i].1).Err? ==> r.Err?
  {
    if n == 0 then Ok([])
    else
      var front :- NamedWith(args, n - 1, read);
      var x :- read(args[n - 1].0, args[n - 1].1);
      Ok(Assoc.Put(front, args[n - 1].0, x))
  }

  /** `parse_arguments(conf)` over the first `n` named declarations; `conf.get` raises KeyError for a missing key. */
  function ParseNamed(args: Assoc.Dict<Item>, conf: Assoc.Dict<Value>, n: nat): (r: Result<Assoc.Dict<Value>, Error>)
    requires n <= |args|
    ensures forall i :: 0 <= i < n && !Assoc.HasKey(conf, args[i].0) && !HasDefault(args[i].1) ==> r.Err?
  {
    assert forall i :: 0 <= i < n && !Assoc.HasKey(conf, args[i].0) && !HasDefault(args[i].1) ==>
             ReadFrom(conf)(args[i].0, args[i].1).Err?;
    NamedWith(args, n, ReadFrom(conf))
  }

  /** A named argument is bound to its converted configuration value, or to its default when the key is missing. */
  lemma NamedValues(args: Assoc.Dict<Item>, conf: Assoc.Dict<Value>, n: nat, j: nat)
    requires j < n <= |args| && Assoc.DistinctKeys(args)
    requires ParseNamed(args, conf, n).Ok?
    ensures NamedValue(args[j].0, args[j].1, conf).Ok?
    ensures Assoc.Get(ParseNamed(args, conf, n).value, args[j].0) == Some(NamedValue(args[j].0, args[j].1, conf).value)
  {
    ReadValues(args, n, j, ReadFrom(conf));
  }

  /** Whatever the reader, each named declaration is bound under its name to the value read for it. */
  lemma {:induction false} ReadValues(args: Assoc.Dict<Item>, n: nat, j: nat, read: Reader)
    requires j < n <= |args| && Assoc.DistinctKeys(args)
    requires NamedWith(args, n, read).Ok?
    ensures read(args[j].0, args[j].1).Ok?
    ensures Assoc.Get(NamedWith(args, n, read).value, args[j].0) == Some(read(args[j].0, args[j].1).value)
  {
    if j < n - 1 {
      ReadValues(args, n - 1, j, read);
      assert args[j].0 != args[n - 1].0;
    }
  }

  /** The parsed names are exactly the names of the declarations the loop went over. */
  lemma {:induction false} ReadNames(args: Assoc.Dict<Item>, n: nat, read: Reader, k: string)
    requires n <= |args| && NamedWith(args, n, read).Ok?
    ensures Assoc.HasKey(NamedWith(args, n, read).value, k) <==> Assoc.HasKey(args[..n], k)
  {
    if n > 0 {
      var front := NamedWith(args, n - 1, read).value;
      var x := read(args[n - 1].0, args[n - 1].1).value;
      assert NamedWith(args, n, read).value == Assoc.Put(front, args[n - 1].0, x);
      ReadNames(args, n - 1, read, k);
      Assoc.PutHasKeyAt(front, args[n - 1].0, x, k);
      Assoc.HasKeyPrefix(args, n, k);
    }
  }
}
