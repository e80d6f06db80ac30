/**
 * Command-line commands: declaring positional and named arguments, binding
 * the positional list and the keyword dictionary to them, checking the
 * entry point's signature, and looking commands up by name.
 */
module Commands {
  import opened Outcomes
  import opened PyValue
  import opened ArgumentConversion
  import Assoc

  /** A declared argument; `VNone` as the default means there is none. */
  datatype Item = Item(name: string, valueType: Option<PyClass>, default: Value, alias: Option<string>)

  predicate HasDefault(it: Item) {
    it.default != VNone
  }

  /** Why a `CommandArgumentException` is raised. */
  datatype Reason =
    | TypeNotAllowed
    | DefaultOfWrongType
    | DefaultMissing
    | PositionalCount
    | InvalidValue(name: string)
    | UnknownArguments(keys: set<string>)
    | Required(alias: string)
    | SignatureMismatch

  datatype Error =
    | ArgumentError(reason: Reason)
    | NoCommand(command: string)
    | Raised(exc: Exc)

  datatype Builder = Builder(
    args: Assoc.Dict<Item>,
    byAlias: Assoc.Dict<Item>,
    positional: Assoc.Dict<Item>,
    /** Whether a positional argument with a default has been declared. */
    defaultUsed: bool)

  const EmptyBuilder := Builder([], [], [], false)

  // ------------------------------------------------------------ declaring

  /** `add_argument(name, value_type, help, default, alias)`. */
  function AddArgument(b: Builder, name: string, valueType: Option<PyClass>, default: Value, alias: Option<string>)
    : (r: Result<Builder, Error>)
    ensures valueType.Some? && valueType.value !in NamedTypes ==> r == Err(ArgumentError(TypeNotAllowed))
    ensures (valueType.None? || valueType.value in NamedTypes) && default != VNone ==>
              (valueType.None? ==> r == Err(Raised(TypeError)))
              && (valueType.Some? && !IsInstance(default, valueType.value) ==> r == Err(ArgumentError(DefaultOfWrongType)))
    ensures r.Ok? <==> (valueType.None? || valueType.value in NamedTypes)
                       && (default != VNone ==> valueType.Some? && IsInstance(default, valueType.value))
    ensures r.Ok? ==>
      && Assoc.Get(r.value.args, name).Some?
      && var it := Assoc.Get(r.value.args, name).value;
      && Assoc.Get(r.value.byAlias, alias.GetOr(name)) == Some(it)
      && it.name == name && it.valueType == valueType && it.alias == Some(alias.GetOr(name))
      && it.default == (if valueType == Some(BoolT) && default == VNone then VBool(false) else default)
      && (forall k :: k != name ==> Assoc.Get(r.value.args, k) == Assoc.Get(b.args, k))
      && (forall k :: k != alias.GetOr(name) ==> Assoc.Get(r.value.byAlias, k) == Assoc.Get(b.byAlias, k))
      && r.value.positional == b.positional && r.value.defaultUsed == b.defaultUsed
  {
    if valueType.Some? && valueType.value !in NamedTypes then Err(ArgumentError(TypeNotAllowed))
    else if default != VNone && valueType.None? then Err(Raised(TypeError))
    else if default != VNone && !IsInstance(default, valueType.value) then Err(ArgumentError(DefaultOfWrongType))
    else
      var d := if valueType == Some(BoolT) && default == VNone then VBool(false) else default;
      var a := alias.GetOr(name);
      var it := Item(name, valueType, d, Some(a));
      Ok(b.(args := Assoc.Put(b.args, name, it), byAlias := Assoc.Put(b.byAlias, a, it)))
  }

  /** `add_default_argument(name, value_type, help, default)`: a positional argument. */
  function AddPositional(b: Builder, name: string, valueType: Option<PyClass>, default: Value): (r: Result<Builder, Error>)
    ensures valueType.None? ==> r == Err(Raised(AttributeError("__name__")))
    ensures valueType.Some? && valueType.value !in PositionalTypes ==> r == Err(ArgumentError(TypeNotAllowed))
    ensures r.Ok? <==> valueType.Some? && valueType.value in PositionalTypes
                       && (b.defaultUsed ==> default != VNone)
                       && (default != VNone ==> IsInstance(default, valueType.value))
    ensures r.Ok? ==>
      && Assoc.Get(r.value.positional, name) == Some(Item(name, valueType, default, None))
      && (forall k :: k != name ==> Assoc.Get(r.value.positional, k) == Assoc.Get(b.positional, k))
      && r.value.defaultUsed == (b.defaultUsed || default != VNone)
      && r.value.args == b.args && r.value.byAlias == b.byAlias
  {
    match valueType
    case None => Err(Raised(AttributeError("__name__")))
    case Some(t) =>
      if t !in PositionalTypes then Err(ArgumentError(TypeNotAllowed))
      else if b.defaultUsed && default == VNone then Err(ArgumentError(DefaultMissing))
      else if default != VNone && !IsInstance(default, t) then Err(ArgumentError(DefaultOfWrongType))
      else
        Ok(b.(positional := Assoc.Put(b.positional, name, Item(name, valueType, default, None)),
              defaultUsed := b.defaultUsed || default != VNone))
  }

  /** Positional arguments with a default come after all those without one. */
  predicate Trailing(p: Assoc.Dict<Item>) {
    forall i, j :: 0 <= i < j < |p| && HasDefault(p[i].1) ==> HasDefault(p[j].1)
  }

  predicate AnyDefault(p: Assoc.Dict<Item>) {
    exists i :: 0 <= i < |p| && HasDefault(p[i].1)
  }

  /** The defaulted positionals trail, and the flag says whether there is one. */
  predicate DefaultsTrail(b: Builder) {
    Trailing(b.positional) && (b.defaultUsed <==> AnyDefault(b.positional))
  }

  lemma TrailingAppend(p: Assoc.Dict<Item>, e: (string, Item))
    requires Trailing(p) && (AnyDefault(p) ==> HasDefault(e.1))
    ensures Trailing(p + [e])
    ensures AnyDefault(p + [e]) <==> AnyDefault(p) || HasDefault(e.1)
  {
    var q := p + [e];
    forall i, j | 0 <= i < j < |q| && HasDefault(q[i].1) ensures HasDefault(q[j].1) {
      assert q[i] == p[i];
      if j < |p| {
        assert q[j] == p[j];
      }
    }
    if AnyDefault(p) {
      var i :| 0 <= i < |p| && HasDefault(p[i].1);
      assert q[i] == p[i];
    }
    assert q[|p|] == e;
  }

  /** Declaring a new positional argument keeps the defaulted ones at the end. */
  lemma AddPositionalKeepsOrder(b: Builder, name: string, valueType: Option<PyClass>, default: Value)
    requires DefaultsTrail(b) && !Assoc.HasKey(b.positional, name)
    requires AddPositional(b, name, valueType, default).Ok?
    ensures DefaultsTrail(AddPositional(b, name, valueType, default).value)
  {
    var it := Item(name, valueType, default, None);
    AppendNew(b.positional, name, it);
    TrailingAppend(b.positional, (name, it));
  }

  /** Storing a new key appends it. */
  lemma {:induction false} AppendNew<V>(d: Assoc.Dict<V>, k: string, v: V)
    requires !Assoc.HasKey(d, k)
    ensures Assoc.Put(d, k, v) == d + [(k, v)]
  {
    if |d| > 0 {
      AppendNew(d[1..], k, v);
      assert [d[0]] + (d[1..] + [(k, v)]) == d + [(k, v)];
    }
  }

  // ------------------------------------------------- binding the positionals

  /** How many positional arguments have a truthy default. */
  function TruthyDefaults(p: Assoc.Dict<Item>): (n: nat)
    ensures n <= |p|
  {
    if |p| == 0 then 0
    else (if Truthy(p[0].1.default) then 1 else 0) + TruthyDefaults(p[1..])
  }

  /** The count checks of `transform_default_arguments`; true when the count is rejected. */
  predicate BadCount(b: Builder, given: nat, failOnUnknown: bool) {
    var expected := |b.positional|;
    || (!b.defaultUsed && (given == 0 || expected != given))
    || (failOnUnknown && given > expected)
    || (b.defaultUsed && given != 0 && given < expected - TruthyDefaults(b.positional))
  }

  /** Convert the value of one argument, as the positional binding does: TypeError and ValueError are reported. */
  function ConvertPositional(it: Item, v: Value): (r: Result<Value, Error>)
    ensures it.valueType.None? ==> r == Ok(v)
    ensures it.valueType.Some? ==>
      match Convert(v, it.valueType.value)
      case Ok(x) => r == Ok(x)
      case Err(e) => r == Err(if e == TypeError || e == ValueError then ArgumentError(InvalidValue(it.name)) else Raised(e))
  {
    match it.valueType
    case None => Ok(v)
    case Some(t) =>
      match Convert(v, t)
      case Ok(x) => Ok(x)
      case Err(e) => Err(if e == TypeError || e == ValueError then ArgumentError(InvalidValue(it.name)) else Raised(e))
  }

  /** The conversion of one value for one declaration. */
  type Conversion = (Item, Value) -> Result<Value, Error>

  /**
   * The loop over the first `n` positional declarations, each value passed
   * through `conv`: the given value, or the default where none is given.
   */
  function BindWith(p: Assoc.Dict<Item>, argv: seq<Value>, n: nat, conv: Conversion): Result<Assoc.Dict<Value>, Error>
    requires n <= |p|
  {
    if n == 0 then Ok([])
    else
      var front :- BindWith(p, argv, n - 1, conv);
      var it := p[n - 1].1;
      var x :- conv(it, if n - 1 < |argv| then argv[n - 1] else it.default);
      Ok(Assoc.Put(front, it.name, x))
  }

  /** One of the first `n` declarations has the internal name `k`. */
  predicate Declares(p: Assoc.Dict<Item>, n: nat, k: string)
    requires n <= |p|
  {
    n > 0 && (p[n - 1].1.name == k || Declares(p, n - 1, k))
  }

  /** The bound names are exactly the internal names of the declarations the loop went over. */
  lemma {:induction false} BoundNames(p: Assoc.Dict<Item>, argv: seq<Value>, n: nat, conv: Conversion, k: string)
    requires n <= |p| && BindWith(p, argv, n, conv).Ok?
    ensures Assoc.HasKey(BindWith(p, argv, n, conv).value, k) <==> Declares(p, n, k)
  {
    if n > 0 {
      var front := BindWith(p, argv, n - 1, conv);
      BoundNames(p, argv, n - 1, conv, k);
      var it := p[n - 1].1;
      var x := conv(it, if n - 1 < |argv| then argv[n - 1] else it.default).value;
      assert BindWith(p, argv, n, conv).value == Assoc.Put(front.value, it.name, x);
      Assoc.PutHasKeyAt(front.value, it.name, x, k);
    }
  }

  /** The positional loop of `transform_default_arguments`. */
  function BindPositional(p: Assoc.Dict<Item>, argv: seq<Value>, n: nat): Result<Assoc.Dict<Value>, Error>
    requires n <= |p|
  {
    BindWith(p, argv, n, ConvertPositional)
  }

  /** `transform_default_arguments(argv, fail_on_unknown)`. */
  function TransformPositional(b: Builder, argv: seq<Value>, failOnUnknown: bool): (r: Result<Assoc.Dict<Value>, Error>)
    ensures |argv| == 0 && |b.positional| == 0 ==> r == Ok([])
    ensures !(|argv| == 0 && |b.positional| == 0) && BadCount(b, |argv|, failOnUnknown) ==> r == Err(ArgumentError(PositionalCount))
  {
    if |argv| == 0 && |b.positional| == 0 then Ok([])
    else if BadCount(b, |argv|, failOnUnknown) then Err(ArgumentError(PositionalCount))
    else BindPositional(b.positional, argv, |b.positional|)
  }

  /**
   * The count rules: without a defaulted positional the count must be exact;
   * with one, at least the declared count less the truthy defaults, unless
   * nothing is given at all.
   */
  lemma PositionalCountRule(b: Builder, argv: seq<Value>, failOnUnknown: bool)
    requires TransformPositional(b, argv, failOnUnknown).Ok?
    ensures !b.defaultUsed ==> |argv| == |b.positional|
    ensures b.defaultUsed && |argv| > 0 ==> |argv| >= |b.positional| - TruthyDefaults(b.positional)
    ensures failOnUnknown ==> |argv| <= |b.positional|
  {
  }

  /**
   * Each positional argument is bound under its name, to the converted given
   * value, or to its converted default when the list is too short.
   */
  lemma PositionalValues(p: Assoc.Dict<Item>, argv: seq<Value>, n: nat, j: nat)
    requires j < n <= |p| && Assoc.DistinctKeys(p) && (forall i :: 0 <= i < |p| ==> p[i].1.name == p[i].0)
    requires BindPositional(p, argv, n).Ok?
    ensures var v := if j < |argv| then argv[j] else p[j].1.default;
            ConvertPositional(p[j].1, v).Ok? &&
            Assoc.Get(BindPositional(p, argv, n).value, p[j].0) == Some(ConvertPositional(p[j].1, v).value)
  {
    BoundValues(p, argv, n, j, ConvertPositional);
  }

  /** Whatever the conversion, each declaration is bound under its name to its converted value. */
  lemma {:induction false} BoundValues(p: Assoc.Dict<Item>, argv: seq<Value>, n: nat, j: nat, conv: Conversion)
    requires j < n <= |p| && Assoc.DistinctKeys(p) && (forall i :: 0 <= i < |p| ==> p[i].1.name == p[i].0)
    requires BindWith(p, argv, n, conv).Ok?
    ensures var v := if j < |argv| then argv[j] else p[j].1.default;
            conv(p[j].1, v).Ok? && Assoc.Get(BindWith(p, argv, n, conv).value, p[j].0) == Some(conv(p[j].1, v).value)
  {
    if j < n - 1 {
      BoundValues(p, argv, n - 1, j, conv);
      assert p[j].0 != p[n - 1].0;
    }
  }

  // -------------------------------------------------- binding the keywords

  /** The keyword names that are neither the alias of a named argument nor injected. */
  function Unknown(b: Builder, kwargs: Assoc.Dict<Value>, injected: set<string>): (u: set<string>)
    ensures forall k :: k in u <==> Assoc.HasKey(kwargs, k) && !Assoc.HasKey(b.byAlias, k) && k !in injected
  {
    set i | 0 <= i < |kwargs| && !Assoc.HasKey(b.byAlias, kwargs[i].0) && kwargs[i].0 !in injected :: kwargs[i].0
  }

  /** How the value of one named argument is read, given its declaration and alias. */
  type Reader = (Item, string) -> Result<Value, Error>

  /** Reading from the keyword arguments `kwargs`. */
  function ReadFrom(kwargs: Assoc.Dict<Value>): Reader {
    (it: Item, alias: string) => NamedValue(it, alias, kwargs)
  }

  /** The loop over the first `n` named declarations, skipping injected ones, each value read with `read`. */
  function NamedWith(byAlias: Assoc.Dict<Item>, injected: set<string>, n: nat, read: Reader): (r: Result<Assoc.Dict<Value>, Error>)
    requires n <= |byAlias|
    ensures forall i :: 0 <= i < n && byAlias[i].0 !in injected && read(byAlias[i].1, byAlias[i].0).Err? ==> r.Err?
  {
    if n == 0 then Ok([])
    else
      var front :- NamedWith(byAlias, injected, n - 1, read);
      var (alias, it) := byAlias[n - 1];
      if alias in injected then Ok(front)
      else
        var x :- read(it, alias);
        Ok(Assoc.Put(front, it.name, x))
  }

  /** The keyword loop of `transform_arguments`: a missing argument without a default is an error. */
  function BindNamed(byAlias: Assoc.Dict<Item>, kwargs: Assoc.Dict<Value>, injected: set<string>, n: nat)
    : (r: Result<Assoc.Dict<Value>, Error>)
    requires n <= |byAlias|
    ensures forall i :: 0 <= i < n && byAlias[i].0 !in injected && !Assoc.HasKey(kwargs, byAlias[i].0) && !HasDefault(byAlias[i].1)
                        ==> r.Err?
  {
    assert forall i :: 0 <= i < n && !Assoc.HasKey(kwargs, byAlias[i].0) && !HasDefault(byAlias[i].1) ==>
             ReadFrom(kwargs)(byAlias[i].1, byAlias[i].0).Err?;
    NamedWith(byAlias, injected, n, ReadFrom(kwargs))
  }

  /** The value of one named argument: converted when given (a failed conversion is not caught), else its default. */
  function NamedValue(it: Item, alias: string, kwargs: Assoc.Dict<Value>): (r: Result<Value, Error>)
    ensures Assoc.Get(kwargs, alias).None? ==> r == (if HasDefault(it) then Ok(it.default) else Err(ArgumentError(Required(alias))))
    ensures Assoc.Get(kwargs, alias).Some? && it.valueType.None? ==> r == Ok(Assoc.Get(kwargs, alias).value)
    ensures Assoc.Get(kwargs, alias).Some? && it.valueType.Some? ==>
              r == (match Convert(Assoc.Get(kwargs, alias).value, it.valueType.value) case Ok(x) => Ok(x) case Err(e) => Err(Raised(e)))
  {
    match Assoc.Get(kwargs, alias)
    case None => if HasDefault(it) then Ok(it.default) else Err(ArgumentError(Required(alias)))
    case Some(v) =>
      match it.valueType
      case None => Ok(v)
      case Some(t) =>
        match Convert(v, t)
        case Ok(x) => Ok(x)
        case Err(e) => Err(Raised(e))
  }

  /** `transform_arguments(kwargs, kwargs_injected, fail_on_unknown)`. */
  function TransformNamed(b: Builder, kwargs: Assoc.Dict<Value>, injected: set<string>, failOnUnknown: bool)
    : (r: Result<Assoc.Dict<Value>, Error>)
    ensures failOnUnknown && Unknown(b, kwargs, injected) != {} ==> r == Err(ArgumentError(UnknownArguments(Unknown(b, kwargs, injected))))
    ensures !(failOnUnknown && Unknown(b, kwargs, injected) != {}) ==> r == BindNamed(b.byAlias, kwargs, injected, |b.byAlias|)
  {
    if failOnUnknown && Unknown(b, kwargs, injected) != {} then
      Err(ArgumentError(UnknownArguments(Unknown(b, kwargs, injected))))
    else BindNamed(b.byAlias, kwargs, injected, |b.byAlias|)
  }

  /**
   * A named argument that is not injected is bound under its internal name:
   * to the converted given value, or to its default.
   */
  lemma NamedValues(byAlias: Assoc.Dict<Item>, kwargs: Assoc.Dict<Value>, injected: set<string>, n: nat, j: nat)
    requires j < n <= |byAlias| && byAlias[j].0 !in injected
    requires forall i :: 0 <= i < |byAlias| ==> byAlias[i].1.name != byAlias[j].1.name || i == j
    requires BindNamed(byAlias, kwargs, injected, n).Ok?
    ensures NamedValue(byAlias[j].1, byAlias[j].0, kwargs).Ok?
    ensures Assoc.Get(BindNamed(byAlias, kwargs, injected, n).value, byAlias[j].1.name) ==
            Some(NamedValue(byAlias[j].1, byAlias[j].0, kwargs).value)
  {
    ReadValues(byAlias, injected, n, j, ReadFrom(kwargs));
  }

  /** Whatever the reader, a declaration that is not injected is bound under its internal name to the value read for it. */
  lemma {:induction false} ReadValues(byAlias: Assoc.Dict<Item>, injected: set<string>, n: nat, j: nat, read: Reader)
    requires j < n <= |byAlias| && byAlias[j].0 !in injected
    requires forall i :: 0 <= i < |byAlias| ==> byAlias[i].1.name != byAlias[j].1.name || i == j
    requires NamedWith(byAlias, injected, n, read).Ok?
    ensures read(byAlias[j].1, byAlias[j].0).Ok?
    ensures Assoc.Get(NamedWith(byAlias, injected, n, read).value, byAlias[j].1.name) == Some(read(byAlias[j].1, byAlias[j].0).value)
  {
    if j < n - 1 {
      ReadValues(byAlias, injected, n - 1, j, read);
      assert byAlias[j].1.name != byAlias[n - 1].1.name;
    }
  }

  /** One of the first `n` named declarations is not injected and has the internal name `k`. */
  predicate Reads(byAlias: Assoc.Dict<Item>, injected: set<string>, n: nat, k: string)
    requires n <= |byAlias|
  {
    n > 0 && ((byAlias[n - 1].0 !in injected && byAlias[n - 1].1.name == k) || Reads(byAlias, injected, n - 1, k))
  }

  /** The bound names are exactly the internal names of the declarations read. */
  lemma {:induction false} ReadNames(byAlias: Assoc.Dict<Item>, injected: set<string>, n: nat, read: Reader, k: string)
    requires n <= |byAlias| && NamedWith(byAlias, injected, n, read).Ok?
    ensures Assoc.HasKey(NamedWith(byAlias, injected, n, read).value, k) <==> Reads(byAlias, injected, n, k)
  {
    if n > 0 {
      var front := NamedWith(byAlias, injected, n - 1, read);
      ReadNames(byAlias, injected, n - 1, read, k);
      var (alias, it) := byAlias[n - 1];
      if alias !in injected {
        var x := read(it, alias).value;
        assert NamedWith(byAlias, injected, n, read).value == Assoc.Put(front.value, it.name, x);
        Assoc.PutHasKeyAt(front.value, it.name, x, k);
      }
    }
  }

  // ------------------------------------------------------ the entry point

  /** The entry point's parameters bound by the call, counted as `set_argument` counts them. */
  predicate SignatureMatches(params: seq<string>, bound: set<string>, injected: set<string>) {
    |params| - |(set p | p in params) * injected| == |bound * (set p | p in params)|
  }

  /** The keys of a dictionary, as a set. */
  function KeySet(d: Assoc.Dict<Value>): (ks: set<string>)
    ensures forall k :: k in ks <==> Assoc.HasKey(d, k)
  {
    set i | 0 <= i < |d| :: d[i].0
  }

  /** `set_argument(args, kwargs, injected_args, fail_on_unknown)`: the bound arguments, or the reason they are refused. */
  function SetArgument(b: Builder, params: seq<string>, argv: seq<Value>, kwargs: Assoc.Dict<Value>,
                       injected: set<string>, failOnUnknown: bool): (r: Result<Assoc.Dict<Value>, Error>)
    ensures r.Ok? ==>
      && TransformPositional(b, argv, failOnUnknown).Ok?
      && TransformNamed(b, kwargs, injected, failOnUnknown).Ok?
      && r.value == Assoc.Update(TransformPositional(b, argv, failOnUnknown).value, TransformNamed(b, kwargs, injected, failOnUnknown).value)
      && SignatureMatches(params, KeySet(r.value), injected)
    ensures TransformPositional(b, argv, failOnUnknown).Err? ==> r == Err(TransformPositional(b, argv, failOnUnknown).error)
    ensures TransformPositional(b, argv, failOnUnknown).Ok? && TransformNamed(b, kwargs, injected, failOnUnknown).Err? ==>
              r == Err(TransformNamed(b, kwargs, injected, failOnUnknown).error)
    ensures TransformPositional(b, argv, failOnUnknown).Ok? && TransformNamed(b, kwargs, injected, failOnUnknown).Ok? ==>
              var all := Assoc.Update(TransformPositional(b, argv, failOnUnknown).value, TransformNamed(b, kwargs, injected, failOnUnknown).value);
              (r.Ok? <==> SignatureMatches(params, KeySet(all), injected)) && (r.Err? ==> r == Err(ArgumentError(SignatureMismatch)))
  {
    var positional :- TransformPositional(b, argv, failOnUnknown);
    var named :- TransformNamed(b, kwargs, injected, failOnUnknown);
    var all := Assoc.Update(positional, named);
    if !SignatureMatches(params, KeySet(all), injected) then Err(ArgumentError(SignatureMismatch))
    else Ok(all)
  }

  /** A sequence without repeats has as many elements as its set. */
  lemma {:induction false} DistinctCard(xs: seq<string>)
    requires forall i, j :: 0 <= i < j < |xs| ==> xs[i] != xs[j]
    ensures |set x | x in xs| == |xs|
  {
    if |xs| > 0 {
      var tail := xs[1..];
      DistinctCard(tail);
      assert (set x | x in xs) == {xs[0]} + (set x | x in tail);
      assert xs[0] !in (set x | x in tail);
    }
  }

  /**
   * For an entry point with distinct parameter names, when no bound name is
   * also injected, the count check of `set_argument` passes exactly when
   * every parameter that is not injected is bound.
   */
  lemma SignatureMeansAllBound(params: seq<string>, bound: set<string>, injected: set<string>)
    requires forall i, j :: 0 <= i < j < |params| ==> params[i] != params[j]
    requires bound * injected == {}
    ensures SignatureMatches(params, bound, injected) <==> forall p :: p in params && p !in injected ==> p in bound
  {
    var ps := set p | p in params;
    DistinctCard(params);
    var free := ps - injected;
    assert |ps| == |free| + |ps * injected| by {
      assert ps == free + ps * injected;
      assert free * (ps * injected) == {};
    }
    var hit := bound * ps;
    assert hit <= free;
    if forall p :: p in params && p !in injected ==> p in bound {
      assert free <= hit;
      assert hit == free;
    }
    if SignatureMatches(params, bound, injected) {
      assert |hit| == |free|;
      SubsetSameSize(hit, free);
      forall p | p in params && p !in injected ensures p in bound {
        assert p in free;
      }
    }
  }

  lemma SubsetSameSize(a: set<string>, b: set<string>)
    requires a <= b && |a| == |b|
    ensures a == b
  {
    assert |b - a| == |b| - |a| by {
      assert b == a + (b - a);
      assert a * (b - a) == {};
    }
    assert b - a == {};
  }

  /** `filter_injected_arguments`: the injected values the entry point takes, or nothing when none are injected. */
  function FilterInjected(params: seq<string>, injected: Assoc.Dict<Value>): (r: Option<Assoc.Dict<Value>>)
    ensures |injected| == 0 <==> r.None?
    ensures r.Some? ==> forall k :: Assoc.GetLast(r.value, k) == (if k in params then Assoc.GetLast(injected, k) else None)
  {
    if |injected| == 0 then None
    else Some(Keep(params, injected))
  }

  function Keep(params: seq<string>, d: Assoc.Dict<Value>): (r: Assoc.Dict<Value>)
    ensures forall k :: Assoc.GetLast(r, k) == (if k in params then Assoc.GetLast(d, k) else None)
  {
    if |d| == 0 then []
    else
      var front := Keep(params, d[..|d| - 1]);
      var last := d[|d| - 1];
      if last.0 in params then
        var r := front + [last];
        assert r[..|r| - 1] == front;
        r
      else front
  }

  /** `__get_args`: the injected values the entry point takes, overridden by the bound arguments. */
  function CallArguments(params: seq<string>, args: Assoc.Dict<Value>, injected: Assoc.Dict<Value>): (r: Assoc.Dict<Value>)
    ensures forall k :: Assoc.HasKey(args, k) ==> Assoc.Get(r, k) == Assoc.GetLast(args, k)
    ensures forall k :: !Assoc.HasKey(args, k) ==> Assoc.Get(r, k) == (if k in params then Assoc.GetLast(injected, k) else None)
  {
    var base := Injected(params, injected);
    Assoc.Update(base, args)
  }

  /** `all_args` once the filtered injected values are stored. */
  function Injected(params: seq<string>, injected: Assoc.Dict<Value>): (r: Assoc.Dict<Value>)
    ensures forall k :: Assoc.Get(r, k) == (if k in params then Assoc.GetLast(injected, k) else None)
  {
    match FilterInjected(params, injected)
    case Some(f) => Assoc.Update([], f)
    case None => []
  }

  // ------------------------------------------------------------- registry

  /** A discovered command: its metadata, the module it came from and its entry point's parameters. */
  datatype Command = Command(name: string, classpath: string, arguments: Builder, params: seq<string>)

  /** `CommandModules[name]`. */
  function Lookup(modules: Assoc.Dict<Command>, name: string): (r: Result<Command, Error>)
    ensures r.Err? <==> !Assoc.HasKey(modules, name)
    ensures r.Err? ==> r.error == NoCommand(name)
    ensures r.Ok? ==> Assoc.Get(modules, name) == Some(r.value)
  {
    match Assoc.Get(modules, name)
    case None => Err(NoCommand(name))
    case Some(c) => Ok(c)
  }

  /** `inject(module)`: a command replaces the one of the same name; nothing to inject changes nothing. */
  function Inject(modules: Assoc.Dict<Command>, c: Option<Command>): (r: Assoc.Dict<Command>)
    ensures c.None? ==> r == modules
    ensures c.Some? ==> Lookup(r, c.value.name) == Ok(c.value)
    ensures c.Some? ==> forall k :: k != c.value.name ==> Lookup(r, k) == Lookup(modules, k)
  {
    match c
    case None => modules
    case Some(m) => Assoc.Put(modules, m.name, m)
  }
}
