/**
 * The schema of a `SerializableObject` subclass, which the Python reads by
 * reflection (`get_type_hints`, the class `__dict__`): declared field kinds,
 * class-level attributes, and the `__mapping__`, `__grouping__`,
 * `__ignored_fields__` and `__strict__` settings.  A table maps the names of
 * the mapped classes to their schemas.
 */
module Schema {
  import opened Outcomes
  import opened Text
  import opened PyValue
  import Assoc

  /** A field annotation. */
  datatype Kind =
    /** A class: `int`, `str`, `list`, `dict`, a mapped class, ... */
    | Plain(cls: PyClass)
    /** `list[T]`. */
    | ListOf(elem: Kind)
    /** `dict[K, V]`. */
    | DictOf(key: PyClass, val: Kind)
    /** A native union `X | Y | ...` of classes. */
    | UnionOf(alternatives: seq<PyClass>)

  /** An entry of a class `__dict__`: a data attribute or one of the callables the code filters out. */
  datatype Attr = Data(value: Value) | Function | Property | ClassMethod | StaticMethod

  datatype ClassSchema = ClassSchema(
    /** The class's own annotations, in declaration order. */
    annotations: seq<(string, Kind)>,
    /** The class's own `__dict__` without its dunder entries. */
    body: Assoc.Dict<Attr>,
    /** `__mapping__`: field name to external key. */
    mapping: Assoc.Dict<string>,
    /** `__grouping__`: group field name to key suffix. */
    grouping: Assoc.Dict<string>,
    ignored: seq<string>,
    strict: bool)

  type Table = map<string, ClassSchema>

  /** One entry of the `__error__` list. */
  datatype Problem =
    | ConflictingType(owner: string, expected: string, got: string, value: Value)
    /** A key of the data that no field declares ("class doesn't contain property"). */
    | UndeclaredKey(owner: string, key: string, value: Value)
    /** A class attribute without an annotation ("doesn't contain type annotation"). */
    | MissingAnnotation(owner: string, name: string)

  /** How a construction fails: an exception, or the aggregated ValueError of strict mode. */
  datatype Failure = Raised(exc: Exc) | Invalid(owner: string, problems: seq<Problem>)

  /** The annotations every mapped class inherits from `SerializableObject`. */
  const BaseAnnotations: seq<string> := ["__strict__", "__grouping__", "__mapping__", "__ignored_fields__", "__file_type__"]

  predicate IsDunder(name: string) {
    StartsWith(name, "__")
  }

  /** Every name `get_type_hints` reports for the class. */
  predicate Annotated(s: ClassSchema, name: string) {
    name in BaseAnnotations || Assoc.HasKey(s.annotations, name)
  }

  /** Whether `name` is one of the external keys of `__mapping__`. */
  predicate IsAlias(s: ClassSchema, key: string) {
    exists i :: 0 <= i < |s.mapping| && s.mapping[i].1 == key
  }

  /** The attributes `__deserialize` calls properties: non-dunder, not ignored, not callable. */
  predicate IsProperty(s: ClassSchema, name: string, a: Attr) {
    !IsDunder(name) && name !in s.ignored && a.Data?
  }

  function Properties(s: ClassSchema): (r: Assoc.Dict<Value>)
    ensures forall k :: Assoc.HasKey(r, k) ==> exists i :: 0 <= i < |s.body| && s.body[i].0 == k && IsProperty(s, k, s.body[i].1)
  {
    PropertiesOf(s, s.body)
  }

  function PropertiesOf(s: ClassSchema, body: Assoc.Dict<Attr>): (r: Assoc.Dict<Value>)
    ensures |r| <= |body|
    ensures forall k :: Assoc.HasKey(r, k) ==> exists i :: 0 <= i < |body| && body[i].0 == k && IsProperty(s, k, body[i].1)
    ensures forall i :: 0 <= i < |body| && IsProperty(s, body[i].0, body[i].1) ==> Assoc.HasKey(r, body[i].0)
    ensures forall i :: 0 <= i < |r| ==> exists j :: 0 <= j < |body| && body[j] == (r[i].0, Data(r[i].1))
  {
    if |body| == 0 then []
    else
      var rest := PropertiesOf(s, body[1..]);
      assert forall i :: 1 <= i < |body| ==> body[i] == body[1..][i - 1];
      if IsProperty(s, body[0].0, body[0].1) then
        var r := [(body[0].0, body[0].1.value)] + rest;
        Assoc.ConsKeys(r);
        assert forall i :: 1 <= i < |r| ==> r[i] == rest[i - 1];
        r
      else rest
  }

  /**
   * In a class `__dict__` (whose keys are distinct) a property reads the value
   * the class body holds for it, and a name that is not a property reads nothing.
   */
  lemma {:induction false} PropertiesGet(s: ClassSchema, body: Assoc.Dict<Attr>, k: string)
    requires Assoc.DistinctKeys(body)
    ensures Assoc.Get(PropertiesOf(s, body), k) ==
              match Assoc.Get(body, k)
              case Some(a) => if IsProperty(s, k, a) then Some(a.value) else None
              case None => None
  {
    if |body| > 0 {
      assert Assoc.DistinctKeys(body[1..]) by {
        forall i, j | 0 <= i < j < |body[1..]| ensures body[1..][i].0 != body[1..][j].0 {
          assert body[1..][i] == body[i + 1] && body[1..][j] == body[j + 1];
        }
      }
      PropertiesGet(s, body[1..], k);
      if body[0].0 == k {
        assert !Assoc.HasKey(body[1..], k) by {
          forall i | 0 <= i < |body[1..]| ensures body[1..][i].0 != k {
            assert body[1..][i] == body[i + 1];
          }
        }
      }
    }
  }

  /** The class default of a field: `properties[name]`. */
  function Default(s: ClassSchema, name: string): Option<Value> {
    Assoc.Get(Properties(s), name)
  }
}
