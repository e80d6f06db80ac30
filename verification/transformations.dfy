/**
 * The transformation registry of json2obj: an ordered list of rules, each with
 * a condition and a conversion for serialising and for deserialising, and a
 * flag saying whether the converted value is to be transformed again.  Every
 * dispatch uses the first rule, in registration order, whose condition holds.
 */
module Transformations {
  import opened Outcomes
  import opened PyValue
  import EnumEx
  import Builtins

  /** An object a rule receives or produces. */
  datatype Obj =
    | Data(v: Value)
    | EnumMember(enum: EnumEx.Enumeration, member: EnumEx.Member)
    /** A `datetime`, kept as its POSIX timestamp. */
    | Moment(timestamp: real)

  /** The `expected_type` handed to a deserialising rule. */
  datatype TypeRef =
    | Builtin(cls: PyClass)
    | EnumType(enum: EnumEx.Enumeration)
    | DateTimeType
    /** A native `X | Y` union of classes. */
    | UnionType(alternatives: seq<PyClass>)

  datatype Rule = Rule(
    name: string,
    serializeWhen: Obj -> bool,
    deserializeWhen: (TypeRef, Obj) -> bool,
    serialize: Obj -> Result<Obj, Exc>,
    deserialize: (TypeRef, Obj) -> Result<Obj, Exc>,
    serializeChain: bool,
    deserializeChain: bool)

  datatype Registry = Registry(rules: seq<Rule>)

  const Empty: Registry := Registry([])

  /** `register_transformation`: the rule goes after every rule registered before it. */
  function Register(r: Registry, t: Rule): (r': Registry)
    ensures |r'.rules| == |r.rules| + 1
    ensures r'.rules[..|r.rules|] == r.rules && r'.rules[|r.rules|] == t
  {
    Registry(r.rules + [t])
  }

  /** `items`: the rules in registration order. */
  function Items(r: Registry): seq<Rule> {
    r.rules
  }

  /** The position of the first rule, from `i` on, that serialises `o`. */
  function SerializerFrom(rules: seq<Rule>, o: Obj, i: nat): (r: Option<nat>)
    requires i <= |rules|
    ensures r.Some? ==> i <= r.value < |rules| && rules[r.value].serializeWhen(o)
    ensures r.Some? ==> forall j :: i <= j < r.value ==> !rules[j].serializeWhen(o)
    ensures r.None? ==> forall j :: i <= j < |rules| ==> !rules[j].serializeWhen(o)
    decreases |rules| - i
  {
    if i == |rules| then None
    else if rules[i].serializeWhen(o) then Some(i)
    else SerializerFrom(rules, o, i + 1)
  }

  function DeserializerFrom(rules: seq<Rule>, t: TypeRef, o: Obj, i: nat): (r: Option<nat>)
    requires i <= |rules|
    ensures r.Some? ==> i <= r.value < |rules| && rules[r.value].deserializeWhen(t, o)
    ensures r.Some? ==> forall j :: i <= j < r.value ==> !rules[j].deserializeWhen(t, o)
    ensures r.None? ==> forall j :: i <= j < |rules| ==> !rules[j].deserializeWhen(t, o)
    decreases |rules| - i
  {
    if i == |rules| then None
    else if rules[i].deserializeWhen(t, o) then Some(i)
    else DeserializerFrom(rules, t, o, i + 1)
  }

  /** The first rule that serialises `o`, if any. */
  function Serializer(r: Registry, o: Obj): Option<nat> {
    SerializerFrom(r.rules, o, 0)
  }

  function Deserializer(r: Registry, t: TypeRef, o: Obj): Option<nat> {
    DeserializerFrom(r.rules, t, o, 0)
  }

  /** `serialize(obj)`: the loop over the rules; with no rule it returns `None`. */
  function Serialize(rules: seq<Rule>, o: Obj): Result<Obj, Exc> {
    if |rules| == 0 then Ok(Data(VNone))
    else if rules[0].serializeWhen(o) then rules[0].serialize(o)
    else Serialize(rules[1..], o)
  }

  function Deserialize(rules: seq<Rule>, t: TypeRef, o: Obj): Result<Obj, Exc> {
    if |rules| == 0 then Ok(Data(VNone))
    else if rules[0].deserializeWhen(t, o) then rules[0].deserialize(t, o)
    else Deserialize(rules[1..], t, o)
  }

  function NeedChainSerialize(rules: seq<Rule>, o: Obj): bool {
    if |rules| == 0 then false
    else if rules[0].serializeWhen(o) then rules[0].serializeChain
    else NeedChainSerialize(rules[1..], o)
  }

  function NeedChainDeserialize(rules: seq<Rule>, t: TypeRef, o: Obj): bool {
    if |rules| == 0 then false
    else if rules[0].deserializeWhen(t, o) then rules[0].deserializeChain
    else NeedChainDeserialize(rules[1..], t, o)
  }

  lemma {:induction false} SerializerShift(rules: seq<Rule>, o: Obj, i: nat)
    requires 0 < i <= |rules|
    ensures SerializerFrom(rules, o, i) == (match SerializerFrom(rules[1..], o, i - 1)
                                            case Some(j) => Some(j + 1)
                                            case None => None)
    decreases |rules| - i
  {
    if i < |rules| && !rules[i].serializeWhen(o) {
      SerializerShift(rules, o, i + 1);
    }
  }

  lemma {:induction false} DeserializerShift(rules: seq<Rule>, t: TypeRef, o: Obj, i: nat)
    requires 0 < i <= |rules|
    ensures DeserializerFrom(rules, t, o, i) == (match DeserializerFrom(rules[1..], t, o, i - 1)
                                                 case Some(j) => Some(j + 1)
                                                 case None => None)
    decreases |rules| - i
  {
    if i < |rules| && !rules[i].deserializeWhen(t, o) {
      DeserializerShift(rules, t, o, i + 1);
    }
  }

  /**
   * `serialize` and `need_chain_serialize` both answer with the first matching
   * rule: its conversion and its chain flag; with no match, `None` and `False`.
   */
  lemma {:induction false} SerializeFirstMatch(r: Registry, o: Obj)
    ensures Serializer(r, o).None? ==> Serialize(r.rules, o) == Ok(Data(VNone)) && !NeedChainSerialize(r.rules, o)
    ensures Serializer(r, o).Some? ==>
      var i := Serializer(r, o).value;
      Serialize(r.rules, o) == r.rules[i].serialize(o) && NeedChainSerialize(r.rules, o) == r.rules[i].serializeChain
    decreases |r.rules|
  {
    if |r.rules| > 0 && !r.rules[0].serializeWhen(o) {
      SerializeFirstMatch(Registry(r.rules[1..]), o);
      SerializerShift(r.rules, o, 1);
    }
  }

  lemma {:induction false} DeserializeFirstMatch(r: Registry, t: TypeRef, o: Obj)
    ensures Deserializer(r, t, o).None? ==>
      Deserialize(r.rules, t, o) == Ok(Data(VNone)) && !NeedChainDeserialize(r.rules, t, o)
    ensures Deserializer(r, t, o).Some? ==>
      var i := Deserializer(r, t, o).value;
      Deserialize(r.rules, t, o) == r.rules[i].deserialize(t, o) &&
      NeedChainDeserialize(r.rules, t, o) == r.rules[i].deserializeChain
    decreases |r.rules|
  {
    if |r.rules| > 0 && !r.rules[0].deserializeWhen(t, o) {
      DeserializeFirstMatch(Registry(r.rules[1..]), t, o);
      DeserializerShift(r.rules, t, o, 1);
    }
  }

  /** Registering a rule never changes the handling of an object an earlier rule already serialises. */
  lemma {:induction false} RegisterKeepsSerializer(r: Registry, t: Rule, o: Obj)
    requires Serializer(r, o).Some?
    ensures Serializer(Register(r, t), o) == Serializer(r, o)
  {
    var i := Serializer(r, o).value;
    var s := Register(r, t).rules;
    assert s[i] == r.rules[i];
    assert forall j :: 0 <= j < i ==> s[j] == r.rules[j];
    var k := SerializerFrom(s, o, 0);
    assert k.Some? && k.value <= i;
  }

  lemma {:induction false} RegisterKeepsDeserializer(r: Registry, t: Rule, ty: TypeRef, o: Obj)
    requires Deserializer(r, ty, o).Some?
    ensures Deserializer(Register(r, t), ty, o) == Deserializer(r, ty, o)
  {
    var i := Deserializer(r, ty, o).value;
    var s := Register(r, t).rules;
    assert s[i] == r.rules[i];
    assert forall j :: 0 <= j < i ==> s[j] == r.rules[j];
    var k := DeserializerFrom(s, ty, o, 0);
    assert k.Some? && k.value <= i;
  }

  // ---------------------------------------------------------------- datetime

  predicate DateTimeSerializeWhen(o: Obj) {
    o.Moment?
  }

  predicate DateTimeDeserializeWhen(t: TypeRef, o: Obj) {
    t == DateTimeType && o.Data? && o.v.VFloat?
  }

  function DateTimeSerialize(o: Obj): Result<Obj, Exc> {
    Err(NotModelled("datetime.timestamp()"))
  }

  function DateTimeDeserialize(t: TypeRef, o: Obj): Result<Obj, Exc> {
    Err(NotModelled("datetime.fromtimestamp()"))
  }

  const DateTimeRule: Rule := Rule("DateTime", DateTimeSerializeWhen, DateTimeDeserializeWhen,
                                   DateTimeSerialize, DateTimeDeserialize, false, false)

  // ----------------------------------------------------------- string number

  predicate StringNumberSerializeWhen(o: Obj) {
    false
  }

  predicate IsNumberType(t: TypeRef) {
    t == Builtin(IntT) || t == Builtin(FloatT) || t == Builtin(ComplexT)
  }

  predicate StringNumberDeserializeWhen(t: TypeRef, o: Obj) {
    IsNumberType(t) && o.Data? && o.v.VStr?
  }

  function StringNumberSerialize(o: Obj): Result<Obj, Exc> {
    Ok(o)
  }

  /** `r` is what calling the built-in class `c` on `arg` returns or raises. */
  predicate CalledWith(r: Result<Obj, Exc>, c: PyClass, arg: Value) {
    match Builtins.Call(c, arg)
    case Ok(v) => r == Ok(Data(v))
    case Err(e) => r == Err(e)
  }

  /** `expected_type(0)` for the empty text, `expected_type(obj)` otherwise. */
  function StringNumberDeserialize(t: TypeRef, o: Obj): (r: Result<Obj, Exc>)
    ensures IsNumberType(t) && r.Ok? ==> r.value.Data? && ClassOf(r.value.v) == t.cls
    ensures t.Builtin? && o == Data(VStr("")) ==> CalledWith(r, t.cls, VInt(0))
    ensures t.Builtin? && o.Data? && o.v != VStr("") ==> CalledWith(r, t.cls, o.v)
    ensures t == Builtin(IntT) && o == Data(VStr("")) ==> r == Ok(Data(VInt(0)))
  {
    if !t.Builtin? then Err(TypeError)
    else
      var arg := if o.Data? && o.v == VStr("") then VInt(0) else if o.Data? then o.v else VNone;
      var v :- Builtins.Call(t.cls, arg);
      Ok(Data(v))
  }

  const StringNumberRule: Rule := Rule("StringNumber", StringNumberSerializeWhen, StringNumberDeserializeWhen,
                                       StringNumberSerialize, StringNumberDeserialize, false, false)

  // -------------------------------------------------------------------- enum

  predicate EnumSerializeWhen(o: Obj) {
    o.EnumMember?
  }

  predicate EnumDeserializeWhen(t: TypeRef, o: Obj) {
    t.EnumType?
  }

  function EnumSerialize(o: Obj): (r: Result<Obj, Exc>)
    ensures o.EnumMember? ==> r == Ok(Data(o.member.value))
  {
    match o
    case EnumMember(_, m) => Ok(Data(m.value))
    case _ => Err(AttributeError("value"))
  }

  /**
   * The member whose value equals `obj`; an empty enumeration, or a value no
   * member has, raises ValueError; an unhashable value raises TypeError.
   */
  function EnumDeserialize(t: TypeRef, o: Obj): (r: Result<Obj, Exc>)
    ensures t.EnumType? && o.Data? && r.Ok? ==>
      r.value.EnumMember? && PyEq(r.value.member.value, o.v)
    ensures t.EnumType? && o.Data? && Hashable(o.v) ==>
      (r.Ok? <==> exists i :: 0 <= i < |t.enum.memberMap| && EnumEx.ValueAt(t.enum, i, o.v))
  {
    if !t.EnumType? then Err(TypeError)
    else if |t.enum.memberMap| == 0 then Err(ValueError)
    else match o
      case Data(v) =>
        if !Hashable(v) then Err(TypeError)
        else (match EnumEx.FromValue(t.enum, v)
              case Some(m) => Ok(EnumMember(t.enum, m))
              case None => Err(ValueError))
      case _ => Err(ValueError)
  }

  const EnumRule: Rule := Rule("Enum", EnumSerializeWhen, EnumDeserializeWhen,
                               EnumSerialize, EnumDeserialize, true, false)

  /** The registry json2obj starts with. */
  const BuiltIn: Registry := Register(Register(Register(Empty, DateTimeRule), StringNumberRule), EnumRule)

  /** Text expected as a number is handled by the string-number rule: `""` becomes zero. */
  lemma BuiltInReadsEmptyTextAsZero()
    ensures Deserialize(BuiltIn.rules, Builtin(IntT), Data(VStr(""))) == Ok(Data(VInt(0)))
    ensures Deserialize(BuiltIn.rules, Builtin(FloatT), Data(VStr(""))) == Ok(Data(VFloat(0.0)))
  {
    assert BuiltIn.rules == [DateTimeRule, StringNumberRule, EnumRule];
  }

  /** The built-in order puts DateTime first, then StringNumber, then Enum. */
  lemma {:induction false} BuiltInDispatch(t: TypeRef, o: Obj)
    ensures DateTimeDeserializeWhen(t, o) ==> Deserializer(BuiltIn, t, o) == Some(0)
    ensures StringNumberDeserializeWhen(t, o) ==> Deserializer(BuiltIn, t, o) == Some(1)
    ensures EnumDeserializeWhen(t, o) ==> Deserializer(BuiltIn, t, o) == Some(2)
    ensures !DateTimeDeserializeWhen(t, o) && !StringNumberDeserializeWhen(t, o) && !EnumDeserializeWhen(t, o) ==>
      Deserializer(BuiltIn, t, o).None?
    ensures !NeedChainDeserialize(BuiltIn.rules, t, o)
  {
    var rs := BuiltIn.rules;
    assert rs == [DateTimeRule, StringNumberRule, EnumRule];
    assert rs[0].deserializeWhen(t, o) == DateTimeDeserializeWhen(t, o);
    assert rs[1].deserializeWhen(t, o) == StringNumberDeserializeWhen(t, o);
    assert rs[2].deserializeWhen(t, o) == EnumDeserializeWhen(t, o);
    DeserializeFirstMatch(BuiltIn, t, o);
  }

  /** Enum members serialise to their value, and only they chain. */
  lemma {:induction false} BuiltInSerialize(o: Obj)
    ensures o.EnumMember? ==> Serialize(BuiltIn.rules, o) == Ok(Data(o.member.value)) && NeedChainSerialize(BuiltIn.rules, o)
    ensures o.Data? ==> Serialize(BuiltIn.rules, o) == Ok(Data(VNone)) && !NeedChainSerialize(BuiltIn.rules, o)
  {
    var rs := BuiltIn.rules;
    assert rs == [DateTimeRule, StringNumberRule, EnumRule];
    assert !rs[0].serializeWhen(o) || !o.EnumMember?;
    assert !rs[1].serializeWhen(o);
    assert rs[2].serializeWhen(o) == o.EnumMember?;
    assert rs[2].serialize(o) == EnumSerialize(o);
    SerializeFirstMatch(BuiltIn, o);
    if o.EnumMember? {
      assert Serializer(BuiltIn, o) == Some(2);
    } else if o.Data? {
      assert Serializer(BuiltIn, o) == None;
    }
  }

  /** Deserialising a member's value with its enumeration and serialising the result gives the value back (up to `==`). */
  lemma EnumRoundTrip(e: EnumEx.Enumeration, m: EnumEx.Member)
    requires exists i :: 0 <= i < |e.memberMap| && e.memberMap[i].1 == m
    requires Hashable(m.value)
    ensures EnumDeserialize(EnumType(e), Data(m.value)).Ok?
    ensures var back := EnumDeserialize(EnumType(e), Data(m.value)).value;
            EnumSerialize(back).Ok? && EnumSerialize(back).value.Data? &&
            PyEq(EnumSerialize(back).value.v, m.value)
  {
    var i :| 0 <= i < |e.memberMap| && e.memberMap[i].1 == m;
    PyEqReflexive(m.value);
    assert EnumEx.ValueAt(e, i, m.value);
  }
}
