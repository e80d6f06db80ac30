/**
 * `ConfigObject`, the older object mapper: an instance built from keyword
 * arguments or from a dictionary, with class attributes that stand for
 * nested configuration classes (`Child` or `[Child]`), and serialised back
 * to a dictionary without `None` values.
 *
 * The class checks read `types.ClassType`, which Python 3 does not have:
 * `Check.Written` models that lookup failing, `Check.Intended` models the
 * check as the plain `isinstance(x, type)` the code evidently means.
 */
module Config {
  import opened Outcomes
  import opened Text
  import opened PyValue
  import Assoc

  /** A class attribute. */
  datatype Member =
    | Data(value: Value)
    /** A class object; a configuration class when it is in the table. */
    | ClassRef(cls: string)
    /** A list whose first element is the class `cls`. */
    | ClassList(cls: string, rest: seq<Value>)
    | Method

  datatype ConfigClass = ConfigClass(body: Assoc.Dict<Member>)

  /** The configuration classes by name. */
  type Table = map<string, ConfigClass>

  /** What `types.ClassType` raises under Python 3. */
  const NoClassType := AttributeError("ClassType")

  /** The methods every `ConfigObject` has, which `dir(self)` lists besides the class's own attributes. */
  const BaseMethods: seq<string> := ["clean", "deserialize", "serialize", "_handle_initialization", "_handle_deserialization"]

  /** Each class body is a Python class `__dict__`, so its names are distinct. */
  predicate Valid(t: Table) {
    forall n :: n in t ==> Assoc.DistinctKeys(t[n].body)
  }

  predicate IsConfig(t: Table, v: Value) {
    v.VObj? && v.cls in t
  }

  // ---------------------------------------------------------- construction

  /** `_handle_initialization(kwargs)`: only names `dir(self)` lists are set. */
  function Initialize(t: Table, n: string, kwargs: Assoc.Dict<Value>): (r: Value)
    requires n in t
    ensures r.VObj? && r.cls == n
    ensures forall k :: Assoc.Get(r.attrs, k) ==
              (if Assoc.HasKey(t[n].body, k) || k in BaseMethods then Assoc.GetLast(kwargs, k) else None)
  {
    VObj(n, Known(t[n].body, kwargs))
  }

  function Known(body: Assoc.Dict<Member>, kwargs: Assoc.Dict<Value>): (r: Assoc.Dict<Value>)
    ensures forall k :: Assoc.Get(r, k) == (if Assoc.HasKey(body, k) || k in BaseMethods then Assoc.GetLast(kwargs, k) else None)
  {
    if |kwargs| == 0 then []
    else
      var front := Known(body, kwargs[..|kwargs| - 1]);
      var (k, v) := kwargs[|kwargs| - 1];
      if Assoc.HasKey(body, k) || k in BaseMethods then Assoc.Put(front, k, v) else front
  }

  /** `ConfigObject(serialized_obj, **kwargs)`. */
  function New(t: Table, n: string, serialized: Value, kwargs: Assoc.Dict<Value>, mode: Check): (r: Result<Value, Exc>)
    requires Valid(t)
    requires n in t
    ensures |kwargs| > 0 ==> r == Ok(Initialize(t, n, kwargs))
    ensures |kwargs| == 0 ==> r == Construct(t, n, serialized, mode)
  {
    if |kwargs| > 0 then Ok(Initialize(t, n, kwargs)) else Construct(t, n, serialized, mode)
  }

  /** `C(v)`, that is `_handle_deserialization(v)`: nothing for None, a shared dictionary for an instance of the same class. */
  function Construct(t: Table, n: string, v: Value, mode: Check): (r: Result<Value, Exc>)
    requires Valid(t)
    requires n in t
    ensures r.Ok? ==> r.value.VObj? && r.value.cls == n
    decreases v, 4, 0
  {
    if v == VNone then Ok(VObj(n, []))
    else if v.VObj? && v.cls == n then Ok(VObj(n, v.attrs))
    else
      var attrs :- Deserialize(t, n, v, mode);
      var cleaned :- Clean(t, t[n].body, attrs, mode);
      Ok(VObj(n, cleaned))
  }

  /** `deserialize(d)`: a non-dictionary sets nothing. */
  function Deserialize(t: Table, n: string, v: Value, mode: Check): (r: Result<Assoc.Dict<Value>, Exc>)
    requires Valid(t)
    requires n in t
    ensures r.Ok? ==> Assoc.DistinctKeys(r.value)
    ensures !v.VDict? ==> r == Ok([])
    decreases v, 3, 0
  {
    if v.VDict? then Entries(t, n, v, mode, |v.entries|) else Ok([])
  }

  /** The loop over the first `i` pairs of the dictionary. */
  function Entries(t: Table, n: string, v: Value, mode: Check, i: nat): (r: Result<Assoc.Dict<Value>, Exc>)
    requires Valid(t)
    requires n in t && v.VDict? && i <= |v.entries|
    ensures r.Ok? ==> Assoc.DistinctKeys(r.value)
    decreases v, 2, i
  {
    if i == 0 then Ok([])
    else
      var front :- Entries(t, n, v, mode, i - 1);
      var (k, x) := v.entries[i - 1];
      match Assoc.Get(t[n].body, k)
      case None => Err(RuntimeError(n + " doesn't contain property " + k))
      case Some(m) =>
        var y :- Field(t, m, x, mode);
        Assoc.PutDistinct(front, k, y);
        Ok(Assoc.Put(front, k, y))
  }

  /** The value stored for data `x` under a class attribute `m`. */
  function Field(t: Table, m: Member, x: Value, mode: Check): (r: Result<Value, Exc>)
    requires Valid(t)
    decreases x, 5, 0
  {
    match m
    case ClassList(c, _) =>
      if c in t then
        if x.VList? then
          var ys :- ConstructList(t, c, x, mode, |x.items|);
          Ok(VList(ys))
        else
          var o :- Construct(t, c, x, mode);
          Ok(VList([o]))
      else if mode == Written then Err(NoClassType)
      else Ok(x)
    case Data(VList(xs)) =>
      // `issubclass` of a first element that is not a class
      if |xs| > 0 then Err(TypeError)
      else if mode == Written then Err(NoClassType)
      else Ok(x)
    case ClassRef(c) =>
      if mode == Written then Err(NoClassType)
      else if c in t then Construct(t, c, x, mode)
      else Ok(x)
    case Data(_) => if mode == Written then Err(NoClassType) else Ok(x)
    case Method => if mode == Written then Err(NoClassType) else Ok(x)
  }

  /** One instance of `c` per element of the first `j` elements of the list `x`. */
  function ConstructList(t: Table, c: string, x: Value, mode: Check, j: nat): (r: Result<seq<Value>, Exc>)
    requires Valid(t)
    requires c in t && x.VList? && j <= |x.items|
    ensures r.Ok? ==> |r.value| == j && forall i :: 0 <= i < j ==> Construct(t, c, x.items[i], mode) == Ok(r.value[i])
    decreases x, 1, j
  {
    if j == 0 then Ok([])
    else
      var front :- ConstructList(t, c, x, mode, j - 1);
      var o :- Construct(t, c, x.items[j - 1], mode);
      Ok(front + [o])
  }

  /**
   * `clean()`: class placeholders the instance has not set become `None`, and
   * `[Child]` placeholders become `[]`.  `dir(self)` always lists the
   * inherited methods, so with the Python 2 name the first check raises.
   */
  function Clean(t: Table, body: Assoc.Dict<Member>, attrs: Assoc.Dict<Value>, mode: Check): (r: Result<Assoc.Dict<Value>, Exc>)
    requires Assoc.DistinctKeys(body)
    ensures mode == Written ==> r == Err(NoClassType)
    ensures mode == Intended ==> r.Ok? && forall k :: Assoc.Get(r.value, k) == Cleaned(t, body, attrs, k)
  {
    forall k ensures Assoc.Get(Placeholders(t, body, attrs), k) == Cleaned(t, body, attrs, k) {
      PlaceholdersGet(t, body, attrs, k);
    }
    if mode == Written then Err(NoClassType) else Ok(Placeholders(t, body, attrs))
  }

  /** The placeholder a class attribute leaves when the instance has no value of its own. */
  function Leftover(t: Table, m: Member): Option<Value> {
    match m
    case ClassRef(c) => if c in t then Some(VNone) else None
    case ClassList(c, rest) => if c in t && |rest| == 0 then Some(VList([])) else None
    case Data(_) => None
    case Method => None
  }

  /** What `clean()` leaves under `k`: the instance's own value, else the class placeholder's replacement. */
  function Cleaned(t: Table, body: Assoc.Dict<Member>, attrs: Assoc.Dict<Value>, k: string): Option<Value> {
    if Assoc.HasKey(attrs, k) then Assoc.Get(attrs, k)
    else if IsDunderName(k) then None
    else match Assoc.Get(body, k)
      case None => None
      case Some(m) => Leftover(t, m)
  }

  /** The loop of `clean()`: placeholders are appended in class order. */
  function Placeholders(t: Table, body: Assoc.Dict<Member>, attrs: Assoc.Dict<Value>): (r: Assoc.Dict<Value>)
    decreases |body|
  {
    if |body| == 0 then attrs
    else
      var (k, m) := body[0];
      var next := if !IsDunderName(k) && !Assoc.HasKey(attrs, k) && Leftover(t, m).Some? then Assoc.Put(attrs, k, Leftover(t, m).value) else attrs;
      Placeholders(t, body[1..], next)
  }

  /** Every key ends as `Cleaned` says: own values win, placeholders are replaced, nothing else appears. */
  lemma {:induction false} PlaceholdersGet(t: Table, body: Assoc.Dict<Member>, attrs: Assoc.Dict<Value>, k: string)
    requires Assoc.DistinctKeys(body)
    ensures Assoc.Get(Placeholders(t, body, attrs), k) == Cleaned(t, body, attrs, k)
    decreases |body|
  {
    if |body| > 0 {
      var (k0, m) := body[0];
      var rest := body[1..];
      var next := if !IsDunderName(k0) && !Assoc.HasKey(attrs, k0) && Leftover(t, m).Some? then Assoc.Put(attrs, k0, Leftover(t, m).value) else attrs;
      assert Placeholders(t, body, attrs) == Placeholders(t, rest, next);
      assert Assoc.DistinctKeys(rest) by {
        forall i, j | 0 <= i < j < |rest| ensures rest[i].0 != rest[j].0 {
          assert rest[i] == body[i + 1] && rest[j] == body[j + 1];
        }
      }
      PlaceholdersGet(t, rest, next, k);
      Assoc.PutHasKey(attrs, k0, if Leftover(t, m).Some? then Leftover(t, m).value else VNone);
      if k == k0 {
        assert Assoc.Get(body, k) == Some(m);
        forall i | 0 <= i < |rest| ensures rest[i].0 != k {
          assert rest[i] == body[i + 1];
        }
      } else {
        assert Assoc.Get(body, k) == Assoc.Get(rest, k);
        assert Assoc.HasKey(next, k) <==> Assoc.HasKey(attrs, k);
      }
    }
  }

  /** `item[:2] != "__"` fails. */
  predicate IsDunderName(k: string) {
    StartsWith(k, "__")
  }

  // ---------------------------------------------------------- serialisation

  /** `serialize()` of a configuration instance: `None` values are left out, nested instances serialised. */
  function Serialize(t: Table, o: Value): (r: Assoc.Dict<Value>)
    requires o.VObj?
    ensures forall k :: Assoc.HasKey(r, k) <==> exists i :: 0 <= i < |o.attrs| && o.attrs[i].0 == k && o.attrs[i].1 != VNone
    decreases o, 2, 0
  {
    SerializeFields(t, o, |o.attrs|)
  }

  function SerializeFields(t: Table, o: Value, n: nat): (r: Assoc.Dict<Value>)
    requires o.VObj? && n <= |o.attrs|
    ensures forall k :: Assoc.HasKey(r, k) <==> exists i :: 0 <= i < n && o.attrs[i].0 == k && o.attrs[i].1 != VNone
    decreases o, 1, n
  {
    if n == 0 then []
    else
      var front := SerializeFields(t, o, n - 1);
      var (k, v) := o.attrs[n - 1];
      if v == VNone then front
      else
        var x := SerializeValue(t, v);
        Assoc.PutHasKey(front, k, x);
        Assoc.Put(front, k, x)
  }

  /** One attribute value: a non-empty list item by item, a nested instance as its dictionary, anything else as is. */
  function SerializeValue(t: Table, v: Value): (r: Value)
    ensures v.VList? && |v.items| > 0 ==> r.VList? && |r.items| == |v.items|
    ensures IsConfig(t, v) ==> r.VDict?
    ensures !(v.VList? && |v.items| > 0) && !IsConfig(t, v) ==> r == v
    decreases v, 3, 0
  {
    if v.VList? && |v.items| > 0 then VList(SerializeItems(t, v, |v.items|))
    else if IsConfig(t, v) then VDict(Serialize(t, v))
    else v
  }

  function SerializeItems(t: Table, l: Value, j: nat): (r: seq<Value>)
    requires l.VList? && j <= |l.items|
    ensures |r| == j
    ensures forall i :: 0 <= i < j ==> r[i] == (if IsConfig(t, l.items[i]) then VDict(Serialize(t, l.items[i])) else l.items[i])
    decreases l, 0, j
  {
    if j == 0 then []
    else
      var x := l.items[j - 1];
      SerializeItems(t, l, j - 1) + [if IsConfig(t, x) then VDict(Serialize(t, x)) else x]
  }
}

/** What `ConfigObject` promises, and the Python 3 failure of the code as written. */
module ConfigFacts {
  import opened Outcomes
  import opened PyValue
  import Assoc
  import opened Config

  /** As written, building from anything but `None` or an instance of the same class raises. */
  lemma AsWrittenNeverBuilds(t: Table, n: string, v: Value)
    requires Valid(t) && n in t
    requires v != VNone && !(v.VObj? && v.cls == n)
    ensures Construct(t, n, v, Written).Err?
  {
  }

  /** `C(serialized_obj={})`: as written the `types.ClassType` lookup in `clean()` raises; intended, an empty instance. */
  lemma EmptyDictAsWritten(t: Table, n: string)
    requires Valid(t) && n in t
    requires forall k :: Assoc.Get(t[n].body, k).Some? ==> IsDunderName(k) || Leftover(t, Assoc.Get(t[n].body, k).value).None?
    ensures Construct(t, n, VDict([]), Written) == Err(NoClassType)
    ensures Construct(t, n, VDict([]), Intended).Ok?
    ensures forall k :: Assoc.Get(Construct(t, n, VDict([]), Intended).value.attrs, k) == None
  {
    var c := Clean(t, t[n].body, [], Intended);
    assert Deserialize(t, n, VDict([]), Intended) == Ok([]);
    assert Construct(t, n, VDict([]), Intended) == Ok(VObj(n, c.value));
  }

  /** A name the class does not declare makes `deserialize` raise. */
  lemma UnknownKeyRejected(t: Table, n: string, es: seq<(string, Value)>, mode: Check)
    requires Valid(t) && n in t
    requires exists j :: 0 <= j < |es| && !Assoc.HasKey(t[n].body, es[j].0)
    ensures Construct(t, n, VDict(es), mode).Err?
  {
    assert Deserialize(t, n, VDict(es), mode) == Entries(t, n, VDict(es), mode, |es|);
    var j :| 0 <= j < |es| && !Assoc.HasKey(t[n].body, es[j].0);
    UnknownKeyStops(t, n, VDict(es), mode, j, |es|);
  }

  /** Once the loop of `deserialize` meets an undeclared name, it has raised. */
  lemma {:induction false} UnknownKeyStops(t: Table, n: string, v: Value, mode: Check, j: nat, i: nat)
    requires Valid(t) && n in t && v.VDict? && j < i <= |v.entries|
    requires !Assoc.HasKey(t[n].body, v.entries[j].0)
    ensures Entries(t, n, v, mode, i).Err?
  {
    if i - 1 > j {
      UnknownKeyStops(t, n, v, mode, j, i - 1);
    } else {
      assert Assoc.Get(t[n].body, v.entries[i - 1].0).None?;
    }
  }

  /** `[Child]`: a list becomes a list of `Child` built element by element, a single value a one-element list. */
  lemma ListFieldShapes(t: Table, c: string, rest: seq<Value>, x: Value)
    requires Valid(t) && c in t
    ensures x.VList? ==> (Field(t, ClassList(c, rest), x, Intended).Ok? <==>
                          forall i :: 0 <= i < |x.items| ==> Construct(t, c, x.items[i], Intended).Ok?)
    ensures x.VList? && Field(t, ClassList(c, rest), x, Intended).Ok? ==>
              var l := Field(t, ClassList(c, rest), x, Intended).value;
              l.VList? && |l.items| == |x.items| &&
              forall i :: 0 <= i < |x.items| ==> Construct(t, c, x.items[i], Intended) == Ok(l.items[i])
    ensures !x.VList? ==>
              Field(t, ClassList(c, rest), x, Intended) ==
              (match Construct(t, c, x, Intended) case Ok(o) => Ok(VList([o])) case Err(e) => Err(e))
  {
    if x.VList? {
      ListAllOk(t, c, x, |x.items|);
    }
  }

  lemma {:induction false} ListAllOk(t: Table, c: string, x: Value, j: nat)
    requires Valid(t) && c in t && x.VList? && j <= |x.items|
    ensures ConstructList(t, c, x, Intended, j).Ok? <==> forall i :: 0 <= i < j ==> Construct(t, c, x.items[i], Intended).Ok?
  {
    if j > 0 {
      ListAllOk(t, c, x, j - 1);
    }
  }

  /** A class attribute that `deserialize` copies over and `clean` leaves alone. */
  predicate Plain(t: Table, m: Member) {
    match m
    case Data(VList(xs)) => |xs| == 0
    case Data(_) => true
    case Method => true
    case ClassRef(c) => c !in t
    case ClassList(c, _) => c !in t
  }

  lemma PlainCopies(t: Table, m: Member, x: Value)
    requires Valid(t) && Plain(t, m)
    ensures Field(t, m, x, Intended) == Ok(x)
    ensures Leftover(t, m).None?
  {
  }

  /** A class with no nested configuration classes, and a dictionary of data naming only its attributes. */
  predicate FlatInput(t: Table, n: string, es: seq<(string, Value)>)
    requires n in t
  {
    && FlatClass(t, n)
    && Assoc.DistinctKeys(es)
    && Declared(t, n, es)
    && (forall i :: 0 <= i < |es| ==> IsData(es[i].1))
  }

  predicate FlatClass(t: Table, n: string)
    requires n in t
  {
    forall i :: 0 <= i < |t[n].body| ==> Plain(t, t[n].body[i].1)
  }

  predicate Declared(t: Table, n: string, es: seq<(string, Value)>)
    requires n in t
  {
    forall i :: 0 <= i < |es| ==> Assoc.HasKey(t[n].body, es[i].0)
  }

  /** One pass of the loop of `deserialize` that stores a converted value. */
  lemma EntriesStep(t: Table, n: string, v: Value, mode: Check, i: nat, m: Member, y: Value)
    requires Valid(t) && n in t && v.VDict? && 0 < i <= |v.entries|
    requires Entries(t, n, v, mode, i - 1).Ok?
    requires Assoc.Get(t[n].body, v.entries[i - 1].0) == Some(m)
    requires Field(t, m, v.entries[i - 1].1, mode) == Ok(y)
    ensures Entries(t, n, v, mode, i) == Ok(Assoc.Put(Entries(t, n, v, mode, i - 1).value, v.entries[i - 1].0, y))
  {
  }

  /** The first `i` pairs of the data name attributes of class `n`. */
  predicate DeclaredUpTo(t: Table, n: string, es: seq<(string, Value)>, i: nat)
    requires n in t && i <= |es|
  {
    i == 0 || (DeclaredUpTo(t, n, es, i - 1) && Assoc.HasKey(t[n].body, es[i - 1].0))
  }

  lemma {:induction false} EachDeclared(t: Table, n: string, es: seq<(string, Value)>, i: nat)
    requires n in t && i <= |es| && Declared(t, n, es)
    ensures DeclaredUpTo(t, n, es, i)
  {
    if i > 0 {
      EachDeclared(t, n, es, i - 1);
    }
  }

  lemma {:induction false} FlatEntries(t: Table, n: string, es: seq<(string, Value)>, i: nat)
    requires Valid(t) && n in t && FlatClass(t, n) && i <= |es| && DeclaredUpTo(t, n, es, i)
    ensures Entries(t, n, VDict(es), Intended, i).Ok?
    ensures forall k :: Assoc.Get(Entries(t, n, VDict(es), Intended, i).value, k) == Assoc.GetLast(es[..i], k)
  {
    if i > 0 {
      FlatEntries(t, n, es, i - 1);
      var k := es[i - 1].0;
      var x := es[i - 1].1;
      assert Assoc.HasKey(t[n].body, k);
      var m := Assoc.Get(t[n].body, k).value;
      assert Plain(t, m) by {
        var j :| 0 <= j < |t[n].body| && t[n].body[j] == (k, m);
      }
      PlainCopies(t, m, x);
      EntriesStep(t, n, VDict(es), Intended, i, m, x);
      SnocGet(Entries(t, n, VDict(es), Intended, i - 1).value, es, i);
    }
  }

  /** Storing pair `i - 1` on top of a dictionary that agrees with the first `i - 1` pairs. */
  lemma SnocGet(front: Assoc.Dict<Value>, es: Assoc.Dict<Value>, i: nat)
    requires 0 < i <= |es|
    requires forall k :: Assoc.Get(front, k) == Assoc.GetLast(es[..i - 1], k)
    ensures forall k :: Assoc.Get(Assoc.Put(front, es[i - 1].0, es[i - 1].1), k) == Assoc.GetLast(es[..i], k)
  {
    assert es[..i][..i - 1] == es[..i - 1];
  }

  lemma {:induction false} FlatPlaceholders(t: Table, body: Assoc.Dict<Member>, attrs: Assoc.Dict<Value>)
    requires Valid(t)
    requires forall i :: 0 <= i < |body| ==> Plain(t, body[i].1)
    ensures Placeholders(t, body, attrs) == attrs
    decreases |body|
  {
    if |body| > 0 {
      PlainCopies(t, body[0].1, VNone);
      assert forall i :: 0 <= i < |body[1..]| ==> body[1..][i] == body[i + 1];
      FlatPlaceholders(t, body[1..], attrs);
    }
  }

  /** `serialize()` reads each instance value once: `None` is dropped, the rest serialised. */
  lemma {:induction false} SerializeGet(t: Table, o: Value, n: nat, k: string)
    requires o.VObj? && n <= |o.attrs| && Assoc.DistinctKeys(o.attrs)
    ensures Assoc.Get(SerializeFields(t, o, n), k) ==
              match Assoc.GetLast(o.attrs[..n], k)
              case None => None
              case Some(v) => if v == VNone then None else Some(SerializeValue(t, v))
  {
    if n > 0 {
      SerializeGet(t, o, n - 1, k);
      Assoc.GetLastPrefix(o.attrs, n, k);
      var front := SerializeFields(t, o, n - 1);
      var (key, v) := o.attrs[n - 1];
      if key == k {
        Assoc.PrefixLacksLast(o.attrs, n);
      }
      if v == VNone {
        assert SerializeFields(t, o, n) == front;
      } else {
        var x := SerializeValue(t, v);
        assert SerializeFields(t, o, n) == Assoc.Put(front, key, x);
      }
    }
  }

  /** Data never holds a configuration instance, so `serialize()` copies it. */
  lemma DataSerializesToItself(t: Table, v: Value)
    requires IsData(v)
    ensures SerializeValue(t, v) == v
  {
    if v.VList? && |v.items| > 0 {
      var r := SerializeItems(t, v, |v.items|);
      assert forall i :: 0 <= i < |v.items| ==> !IsConfig(t, v.items[i]);
      assert r == v.items;
    }
  }

  /**
   * The round trip of a flat configuration class: building it from a
   * dictionary of data that names only its attributes, then serialising,
   * gives back that dictionary without its `None` values.
   */
  lemma FlatRoundTrip(t: Table, n: string, es: seq<(string, Value)>)
    requires Valid(t) && n in t && FlatInput(t, n, es)
    ensures Construct(t, n, VDict(es), Intended).Ok?
    ensures forall k :: Assoc.Get(Serialize(t, Construct(t, n, VDict(es), Intended).value), k) ==
              (if Assoc.Get(es, k) == Some(VNone) then None else Assoc.Get(es, k))
  {
    EachDeclared(t, n, es, |es|);
    FlatEntries(t, n, es, |es|);
    assert es[..|es|] == es;
    var attrs := Entries(t, n, VDict(es), Intended, |es|).value;
    assert Deserialize(t, n, VDict(es), Intended) == Ok(attrs);
    var cleaned := Clean(t, t[n].body, attrs, Intended).value;
    var o := VObj(n, cleaned);
    assert Construct(t, n, VDict(es), Intended) == Ok(o);
    FlatPlaceholders(t, t[n].body, attrs);
    assert cleaned == attrs;
    forall k ensures Assoc.Get(Serialize(t, o), k) == (if Assoc.Get(es, k) == Some(VNone) then None else Assoc.Get(es, k)) {
      Assoc.GetLastDistinct(es, k);
      Assoc.GetLastDistinct(attrs, k);
      SerializeGet(t, o, |attrs|, k);
      assert attrs[..|attrs|] == attrs;
      match Assoc.Get(es, k)
      case None =>
      case Some(v) =>
        var j :| 0 <= j < |es| && es[j] == (k, v);
        DataSerializesToItself(t, v);
    }
  }
}
