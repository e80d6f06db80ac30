/**
 * `EnumEx`, an `Enum` with lookups by name and by value and a lower-case
 * `str()`.  An enumeration is described by its `_member_map_`: every name,
 * aliases included, in definition order, mapped to its canonical member.
 */
module EnumEx {
  import opened Outcomes
  import opened Text
  import opened PyValue
  import Assoc

  datatype Member = Member(name: string, value: Value)

  datatype Enumeration = Enumeration(cls: string, memberMap: Assoc.Dict<Member>)

  /**
   * `from_name(v, default)`: the member registered under `v.upper()`;
   * `None` stands for the caller's `default`.
   */
  function FromName(e: Enumeration, v: string): (r: Option<Member>)
    ensures r.None? <==> !Assoc.HasKey(e.memberMap, Upper(v))
    ensures r.Some? ==> exists i :: 0 <= i < |e.memberMap| && e.memberMap[i] == (Upper(v), r.value)
  {
    Assoc.Get(e.memberMap, Upper(v))
  }

  /** Any spelling that agrees up to case finds the same member. */
  lemma FromNameIgnoresCase(e: Enumeration, v: string)
    ensures FromName(e, v) == FromName(e, Upper(v))
  {
    UpperIdempotent(v);
  }

  lemma FromNameAgreesUpToCase(e: Enumeration, v: string, w: string)
    requires Upper(v) == Upper(w)
    ensures FromName(e, v) == FromName(e, w)
  {
  }

  /** Whether the member at position `i` of the member map has a value equal to `value`. */
  predicate ValueAt(e: Enumeration, i: nat, value: Value)
    requires i < |e.memberMap|
  {
    PyEq(e.memberMap[i].1.value, value)
  }

  function FindValue(e: Enumeration, value: Value, i: nat): (r: Option<nat>)
    requires i <= |e.memberMap|
    ensures r.Some? ==> i <= r.value < |e.memberMap| && ValueAt(e, r.value, value)
    ensures r.Some? ==> forall j :: i <= j < r.value ==> !ValueAt(e, j, value)
    ensures r.None? ==> forall j :: i <= j < |e.memberMap| ==> !ValueAt(e, j, value)
    decreases |e.memberMap| - i
  {
    if i == |e.memberMap| then None
    else if ValueAt(e, i, value) then Some(i)
    else FindValue(e, value, i + 1)
  }

  /**
   * `from_value(value, default)`: the first entry of the member map, in
   * definition order, whose member has a value equal to `value`; `None`
   * stands for `default`.
   */
  function FromValue(e: Enumeration, value: Value): (r: Option<Member>)
    ensures r.Some? ==> PyEq(r.value.value, value)
    ensures r.Some? <==> exists i :: 0 <= i < |e.memberMap| && ValueAt(e, i, value)
    ensures r.Some? ==> exists i :: (0 <= i < |e.memberMap| && e.memberMap[i].1 == r.value &&
                                     ValueAt(e, i, value) && forall j :: 0 <= j < i ==> !ValueAt(e, j, value))
  {
    match FindValue(e, value, 0)
    case Some(i) => Some(e.memberMap[i].1)
    case None => None
  }

  /** `str(member)`: the member's name in lower case. */
  function Str(m: Member): (r: string)
    ensures |r| == |m.name|
    ensures Lower(r) == r
    ensures Upper(r) == Upper(m.name)
  {
    LowerIdempotent(m.name);
    assert forall i :: 0 <= i < |m.name| ==> UpperChar(LowerChar(m.name[i])) == UpperChar(m.name[i]);
    Lower(m.name)
  }

  /**
   * The conventional upper-case member names make `str()` and `from_name()`
   * inverse: the printed name looks the member up again.
   */
  lemma FromNameOfStr(e: Enumeration, m: Member)
    requires Upper(m.name) == m.name
    requires Assoc.Get(e.memberMap, m.name) == Some(m)
    ensures FromName(e, Str(m)) == Some(m)
  {
    UpperOfLower(m.name);
  }

  /** Every member found by value is found again by its own value. */
  lemma FromValueOfValue(e: Enumeration, m: Member)
    requires exists i :: 0 <= i < |e.memberMap| && e.memberMap[i].1 == m
    ensures FromValue(e, m.value).Some?
  {
    var i :| 0 <= i < |e.memberMap| && e.memberMap[i].1 == m;
    PyEqReflexive(m.value);
    assert ValueAt(e, i, m.value);
  }
}
