/**
 * `SerializableObject.__init__` and `__deserialize`: building an instance of a
 * mapped class from an already parsed tree.  Type conflicts are collected as
 * problems and the field becomes `None`; strict classes turn any problem into
 * one aggregated ValueError (`Invalid`), other classes keep them.
 */
module Deserialization {
  import opened Outcomes
  import opened Text
  import opened PyValue
  import opened Schema
  import Assoc
  import Builtins

  /** A transformed field value and the problems found on the way. */
  datatype Out = Out(value: Value, problems: seq<Problem>)

  /** A constructed instance and the problems a non-strict class keeps in `__error__`. */
  datatype Built = Built(obj: Value, problems: seq<Problem>)

  const TextSource := "parsing JSON or YAML text"

  /** `property_type`: the first type argument of the annotation; a bare `list` has none. */
  function PropertyType(k: Kind): Option<Kind> {
    match k
    case Plain(ListT) => None
    case Plain(_) => Some(k)
    case ListOf(e) => Some(e)
    case DictOf(key, _) => Some(Plain(key))
    case UnionOf(_) => Some(k)
  }

  /** `isinstance(v, _type)`, `_type` being the class the annotation stands for. */
  predicate OriginInstance(v: Value, k: Kind) {
    match k
    case Plain(c) => IsInstance(v, c)
    case ListOf(_) => v.VList?
    case DictOf(_, _) => v.VDict?
    case UnionOf(alts) => exists i :: 0 <= i < |alts| && IsInstance(v, alts[i])
  }

  /** `issubclass(k, SerializableObject)`, which raises TypeError for anything but a class. */
  function IsMappedClass(t: Table, k: Kind): Result<bool, Failure> {
    match k
    case Plain(UserClass(n)) => Ok(n in t)
    case Plain(_) => Ok(false)
    case _ => Err(Raised(TypeError))
  }

  predicate IsNumberKind(k: Option<Kind>) {
    k == Some(Plain(IntT)) || k == Some(Plain(FloatT)) || k == Some(Plain(ComplexT))
  }

  function KindName(k: Kind): string {
    match k
    case Plain(c) => ClassName(c)
    case ListOf(_) => "list"
    case DictOf(_, _) => "dict"
    case UnionOf(_) => "UnionType"
  }

  function Conflict(owner: string, pt: Kind, v: Value): Problem {
    ConflictingType(owner, KindName(pt), ClassName(ClassOf(v)), v)
  }

  function Lift(r: Result<Value, Exc>): Result<Value, Failure> {
    match r
    case Ok(v) => Ok(v)
    case Err(e) => Err(Raised(e))
  }

  /** `__deserialize_transform(v, k)` for an object of class `owner`. */
  function Transform(t: Table, owner: string, v: Value, k: Kind): Result<Out, Failure>
    decreases v, 7, 0
  {
    var pt := PropertyType(k);
    if IsNumberKind(pt) && v == VStr("") then
      // the empty text is read as 0, which then faces the type check
      if OriginInstance(VInt(0), k) then Ok(Out(VInt(0), []))
      else Ok(Out(VNone, [Conflict(owner, pt.value, VInt(0))]))
    else if pt.Some? && v != VNone && !OriginInstance(v, k) then
      var mapped :- IsMappedClass(t, pt.value);
      if mapped && v.VDict? then Convert(t, owner, v, k)
      else Ok(Out(VNone, [Conflict(owner, pt.value, v)]))
    else if v == VNone then Ok(Out(VNone, []))
    else Convert(t, owner, v, k)
  }

  /** The conversion that follows a passed type check. */
  function Convert(t: Table, owner: string, v: Value, k: Kind): Result<Out, Failure>
    decreases v, 6, 0
  {
    match k
    case Plain(ListT) => Ok(Out(v, []))
    case ListOf(e) =>
      (match v
       case VList(items) =>
         var xs :- ConstructAll(t, e, v, |items|);
         Ok(Out(VList(xs), []))
       case VDict(entries) =>
         var xs :- ConstructTexts(t, e, Assoc.Keys(entries));
         Ok(Out(VList(xs), []))
       case VStr(s) =>
         var xs :- ConstructTexts(t, e, seq(|s|, i requires 0 <= i < |s| => [s[i]]));
         Ok(Out(VList(xs), []))
       case _ => Err(Raised(TypeError)))
    case Plain(DictT) =>
      if v.VDict? then
        var p :- TransformEntries(t, owner, v, None, |v.entries|);
        Ok(Out(VDict(p.0), p.1))
      else Err(Raised(AttributeError("items")))
    case DictOf(_, vk) =>
      if v.VDict? then
        var p :- TransformEntries(t, owner, v, Some(vk), |v.entries|);
        Ok(Out(VDict(p.0), p.1))
      else Err(Raised(AttributeError("items")))
    case _ =>
      if OriginInstance(v, k) then Ok(Out(v, []))
      else
        var x :- Construct(t, k, v);
        Ok(Out(x, []))
  }

  /** `[e(i) for i in items]` over the first `n` items. */
  function ConstructAll(t: Table, e: Kind, v: Value, n: nat): Result<seq<Value>, Failure>
    requires v.VList? && n <= |v.items|
    decreases v, 5, n
  {
    if n == 0 then Ok([])
    else
      var front :- ConstructAll(t, e, v, n - 1);
      var x :- Construct(t, e, v.items[n - 1]);
      Ok(front + [x])
  }

  /**
   * `{k: transform(x, V)}` over the first `n` entries; without a value kind
   * each value is checked against its own class, as `type(x)` does.
   */
  function TransformEntries(t: Table, owner: string, v: Value, vk: Option<Kind>, n: nat)
    : Result<(Assoc.Dict<Value>, seq<Problem>), Failure>
    requires v.VDict? && n <= |v.entries|
    decreases v, 5, n
  {
    if n == 0 then Ok(([], []))
    else
      var front :- TransformEntries(t, owner, v, vk, n - 1);
      var x := v.entries[n - 1].1;
      var o :- Transform(t, owner, x, EntryKind(vk, x));
      Ok((front.0 + [(v.entries[n - 1].0, o.value)], front.1 + o.problems))
  }

  /** The kind an entry value is checked against: the declared value kind, or else `type(x)`. */
  function EntryKind(vk: Option<Kind>, x: Value): Kind {
    match vk
    case Some(k) => k
    case None => Plain(ClassOf(x))
  }

  /** `k(x)`: calling the annotation as a constructor. */
  function Construct(t: Table, k: Kind, x: Value): Result<Value, Failure>
    decreases x, 4, 0
  {
    match k
    case Plain(UserClass(n)) =>
      if n in t then
        var b :- Instantiate(t, n, x);
        Ok(b.obj)
      else Err(Raised(NotModelled("constructors of classes outside the schema table")))
    case Plain(c) => Lift(Builtins.Call(c, x))
    case ListOf(_) => Lift(Builtins.List(x))
    case DictOf(_, _) => Lift(Builtins.Dict(x))
    case UnionOf(_) => Err(Raised(TypeError))
  }

  /** `k(text)`, which never builds a nested instance from a dictionary. */
  function ConstructText(t: Table, k: Kind, text: string): Result<Value, Failure> {
    match k
    case Plain(UserClass(n)) =>
      if n in t then Err(Raised(NotModelled(TextSource)))
      else Err(Raised(NotModelled("constructors of classes outside the schema table")))
    case Plain(c) => Lift(Builtins.Call(c, VStr(text)))
    case ListOf(_) => Lift(Builtins.List(VStr(text)))
    case DictOf(_, _) => Lift(Builtins.Dict(VStr(text)))
    case UnionOf(_) => Err(Raised(TypeError))
  }

  function ConstructTexts(t: Table, k: Kind, texts: seq<string>): Result<seq<Value>, Failure> {
    if |texts| == 0 then Ok([])
    else
      var front :- ConstructTexts(t, k, texts[..|texts| - 1]);
      var x :- ConstructText(t, k, texts[|texts| - 1]);
      Ok(front + [x])
  }

  /** `C(x)` for the mapped class `n`, as the transformation calls it. */
  function Instantiate(t: Table, n: string, x: Value): Result<Built, Failure>
    requires n in t
    decreases x, 3, 0
  {
    match x
    case VObj(c, _) => if c == n then Ok(Built(x, [])) else Err(Raised(AssertionError))
    case VStr(_) => Err(Raised(NotModelled(TextSource)))
    case VNone => Ok(Built(VObj(n, []), []))
    case VDict(_) => FromDict(t, n, x)
    case _ => Err(Raised(AssertionError))
  }

  /** `__deserialize(d)`. */
  function FromDict(t: Table, n: string, d: Value): (r: Result<Built, Failure>)
    requires n in t && d.VDict?
    decreases d, 2, 0
  {
    var s := t[n];
    var fields :- Fields(t, n, d, |s.annotations|);
    var grouped := Group(s.grouping, d.entries, fields.0, Unmapped(s, d.entries));
    if s.strict then
      var all := fields.1 + Undeclared(n, d.entries, grouped.1) + Unannotated(n, s);
      if |all| > 0 then Err(Invalid(n, all)) else Ok(Built(VObj(n, grouped.0), []))
    else Ok(Built(VObj(n, grouped.0), fields.1))
  }

  /** The instance attributes set by the loop over the first `m` annotations, and the problems met. */
  function Fields(t: Table, n: string, d: Value, m: nat): Result<(Assoc.Dict<Value>, seq<Problem>), Failure>
    requires n in t && d.VDict? && m <= |t[n].annotations|
    decreases d, 1, m
  {
    if m == 0 then Ok(([], []))
    else
      var front :- Fields(t, n, d, m - 1);
      var f :- FieldValue(t, n, d, t[n].annotations[m - 1].0, t[n].annotations[m - 1].1);
      match f
      case None => Ok(front)
      case Some(o) => Ok((Assoc.Put(front.0, t[n].annotations[m - 1].0, o.value), front.1 + o.problems))
  }

  /** The annotation loop over the first `m` annotations succeeds with `f`. */
  predicate FieldsAre(t: Table, n: string, d: Value, m: nat, f: (Assoc.Dict<Value>, seq<Problem>))
    requires n in t && d.VDict? && m <= |t[n].annotations|
  {
    Fields(t, n, d, m) == Ok(f)
  }

  /**
   * The data key a field is read from: its `__mapping__` alias, unless the
   * data holds the field's own name and not the alias.
   */
  function ResolveKey(s: ClassSchema, name: string, d: Assoc.Dict<Value>): (key: string)
    ensures Assoc.Get(s.mapping, name).None? ==> key == name
    ensures Assoc.Get(s.mapping, name).Some? ==>
      var alias := Assoc.Get(s.mapping, name).value;
      && (Assoc.HasKey(d, alias) ==> key == alias)
      && (!Assoc.HasKey(d, alias) && Assoc.HasKey(d, name) ==> key == name)
      && (!Assoc.HasKey(d, alias) && !Assoc.HasKey(d, name) ==> key == alias)
  {
    match Assoc.Get(s.mapping, name)
    case None => name
    case Some(alias) => if Assoc.HasKey(d, name) && !Assoc.HasKey(d, alias) then name else alias
  }

  /** One step of the annotation loop: None for a skipped (dunder or ignored) field. */
  function FieldValue(t: Table, n: string, d: Value, name: string, k: Kind): (r: Result<Option<Out>, Failure>)
    requires n in t && d.VDict?
    decreases d, 0, 0
  {
    var s := t[n];
    if IsDunder(name) || name in s.ignored then Ok(None)
    else
      match Assoc.Find(d.entries, ResolveKey(s, name, d.entries))
      case None =>
        (match Default(s, name)
         case None => Err(Raised(KeyError(name)))
         case Some(v) => Ok(Some(Out(v, []))))
      case Some(i) =>
        var o :- Transform(t, n, d.entries[i].1, k);
        Ok(Some(o))
  }

  /** `missing_definitions`: the data keys no annotation declares and no alias names, in data order. */
  function Unmapped(s: ClassSchema, d: Assoc.Dict<Value>): (ks: seq<string>)
    ensures forall k :: k in ks <==> Assoc.HasKey(d, k) && !Annotated(s, k) && !IsAlias(s, k)
  {
    if |d| == 0 then []
    else
      var rest := Unmapped(s, d[1..]);
      assert forall k :: Assoc.HasKey(d, k) <==> k == d[0].0 || Assoc.HasKey(d[1..], k) by {
        forall k ensures Assoc.HasKey(d, k) <==> k == d[0].0 || Assoc.HasKey(d[1..], k) {
          if k != d[0].0 { Assoc.HasKeyTail(d, k); }
          else { assert d[0].0 == k; }
        }
      }
      if !Annotated(s, d[0].0) && !IsAlias(s, d[0].0) then [d[0].0] + rest else rest
  }

  /** The keys among `ks` ending in `suffix`, with their data values, and the keys left. */
  function Claim(suffix: string, d: Assoc.Dict<Value>, ks: seq<string>): (r: (Assoc.Dict<Value>, seq<string>))
    ensures forall k :: Assoc.HasKey(r.0, k) <==> k in ks && EndsWith(k, suffix)
    ensures forall k :: k in r.1 <==> k in ks && !EndsWith(k, suffix)
    ensures forall i :: 0 <= i < |r.0| ==> Assoc.Get(d, r.0[i].0).GetOr(VNone) == r.0[i].1
  {
    if |ks| == 0 then ([], [])
    else
      var rest := Claim(suffix, d, ks[1..]);
      if EndsWith(ks[0], suffix) then
        var c := [(ks[0], Assoc.Get(d, ks[0]).GetOr(VNone))] + rest.0;
        assert forall k :: Assoc.HasKey(c, k) <==> k == ks[0] || Assoc.HasKey(rest.0, k) by {
          forall k ensures Assoc.HasKey(c, k) <==> k == ks[0] || Assoc.HasKey(rest.0, k) {
            if Assoc.HasKey(rest.0, k) {
              var j :| 0 <= j < |rest.0| && rest.0[j].0 == k;
              assert c[j + 1].0 == k;
            }
            if k == ks[0] { assert c[0].0 == k; }
            if Assoc.HasKey(c, k) && k != ks[0] {
              var j :| 0 <= j < |c| && c[j].0 == k;
              assert rest.0[j - 1].0 == k;
            }
          }
        }
        (c, rest.1)
      else (rest.0, [ks[0]] + rest.1)
  }

  /** The `__grouping__` loop: each group, in order, claims the unmapped keys with its suffix. */
  function Group(groups: Assoc.Dict<string>, d: Assoc.Dict<Value>, attrs: Assoc.Dict<Value>, unmapped: seq<string>)
    : (r: (Assoc.Dict<Value>, seq<string>))
    ensures forall k :: k in r.1 <==> k in unmapped && forall g :: 0 <= g < |groups| ==> !EndsWith(k, groups[g].1)
    decreases |groups|
  {
    if |groups| == 0 then (attrs, unmapped)
    else
      var c := Claim(groups[0].1, d, unmapped);
      var r := if |c.0| > 0 then Group(groups[1..], d, Assoc.Put(attrs, groups[0].0, VDict(c.0)), c.1)
               else Group(groups[1..], d, attrs, unmapped);
      assert forall k :: k in unmapped && EndsWith(k, groups[0].1) ==> |c.0| > 0 by {
        forall k | k in unmapped && EndsWith(k, groups[0].1) ensures |c.0| > 0 {
          assert Assoc.HasKey(c.0, k);
        }
      }
      assert forall k :: (forall g :: 0 <= g < |groups| ==> !EndsWith(k, groups[g].1)) <==>
                         !EndsWith(k, groups[0].1) && forall g :: 0 <= g < |groups[1..]| ==> !EndsWith(k, groups[1..][g].1) by {
        forall k ensures (forall g :: 0 <= g < |groups| ==> !EndsWith(k, groups[g].1)) <==>
                         !EndsWith(k, groups[0].1) && forall g :: 0 <= g < |groups[1..]| ==> !EndsWith(k, groups[1..][g].1) {
          if !EndsWith(k, groups[0].1) && forall g :: 0 <= g < |groups[1..]| ==> !EndsWith(k, groups[1..][g].1) {
            forall g | 0 <= g < |groups| ensures !EndsWith(k, groups[g].1) {
              if g > 0 { assert groups[g] == groups[1..][g - 1]; }
            }
          }
        }
      }
      r
  }

  /** The keys still unclaimed when the group at position `g` runs. */
  function Left(groups: Assoc.Dict<string>, d: Assoc.Dict<Value>, unmapped: seq<string>, g: nat): seq<string>
    requires g <= |groups|
    decreases g
  {
    if g == 0 then unmapped
    else
      var c := Claim(groups[0].1, d, unmapped);
      Left(groups[1..], d, if |c.0| > 0 then c.1 else unmapped, g - 1)
  }

  /** The dictionary the group at position `g` claims. */
  function ClaimAt(groups: Assoc.Dict<string>, d: Assoc.Dict<Value>, unmapped: seq<string>, g: nat): Assoc.Dict<Value>
    requires g < |groups|
  {
    Claim(groups[g].1, d, Left(groups, d, unmapped, g)).0
  }

  /** A key is still unclaimed at group `g` iff no earlier group's suffix matches it. */
  lemma {:induction false} LeftKeys(groups: Assoc.Dict<string>, d: Assoc.Dict<Value>, unmapped: seq<string>, g: nat, k: string)
    requires g <= |groups|
    ensures k in Left(groups, d, unmapped, g) <==> k in unmapped && forall h :: 0 <= h < g ==> !EndsWith(k, groups[h].1)
    decreases g
  {
    if g > 0 {
      var c := Claim(groups[0].1, d, unmapped);
      var next := if |c.0| > 0 then c.1 else unmapped;
      LeftKeys(groups[1..], d, next, g - 1, k);
      if k in unmapped && EndsWith(k, groups[0].1) {
        assert Assoc.HasKey(c.0, k);
      }
      if k in Left(groups, d, unmapped, g) {
        forall h | 0 <= h < g ensures !EndsWith(k, groups[h].1) {
          if h > 0 { assert groups[h] == groups[1..][h - 1]; }
        }
      }
      if k in unmapped && forall h :: 0 <= h < g ==> !EndsWith(k, groups[h].1) {
        assert !EndsWith(k, groups[0].1);
        forall h | 0 <= h < g - 1 ensures !EndsWith(k, groups[1..][h].1) {
          assert groups[1..][h] == groups[h + 1];
        }
      }
    }
  }

  /**
   * Group `g` claims exactly the unmapped keys that end with its suffix and
   * with no earlier group's suffix, each with its value in the data.
   */
  lemma ClaimAtKeys(groups: Assoc.Dict<string>, d: Assoc.Dict<Value>, unmapped: seq<string>, g: nat, k: string)
    requires g < |groups|
    ensures Assoc.HasKey(ClaimAt(groups, d, unmapped, g), k) <==>
              k in unmapped && EndsWith(k, groups[g].1) && forall h :: 0 <= h < g ==> !EndsWith(k, groups[h].1)
    ensures forall i :: 0 <= i < |ClaimAt(groups, d, unmapped, g)| ==>
              Assoc.Get(d, ClaimAt(groups, d, unmapped, g)[i].0).GetOr(VNone) == ClaimAt(groups, d, unmapped, g)[i].1
  {
    LeftKeys(groups, d, unmapped, g, k);
  }

  /** An attribute that no group names keeps the value it had before the grouping loop. */
  lemma {:induction false} GroupKeeps(groups: Assoc.Dict<string>, d: Assoc.Dict<Value>, attrs: Assoc.Dict<Value>, unmapped: seq<string>, k: string)
    requires !Assoc.HasKey(groups, k)
    ensures Assoc.Get(Group(groups, d, attrs, unmapped).0, k) == Assoc.Get(attrs, k)
    decreases |groups|
  {
    if |groups| > 0 {
      assert groups[0].0 != k;
      Assoc.HasKeyTail(groups, k);
      var c := Claim(groups[0].1, d, unmapped);
      if |c.0| > 0 {
        GroupKeeps(groups[1..], d, Assoc.Put(attrs, groups[0].0, VDict(c.0)), c.1, k);
      } else {
        GroupKeeps(groups[1..], d, attrs, unmapped, k);
      }
    }
  }

  /** What the grouping loop leaves in the attribute of the group at position `g`. */
  function GroupValue(groups: Assoc.Dict<string>, d: Assoc.Dict<Value>, attrs: Assoc.Dict<Value>, unmapped: seq<string>, g: nat): Option<Value>
    requires g < |groups|
  {
    var c := ClaimAt(groups, d, unmapped, g);
    if |c| > 0 then Some(VDict(c)) else Assoc.Get(attrs, groups[g].0)
  }

  /** One step of the grouping loop: the first group runs, then the rest on what it leaves. */
  lemma GroupStep(groups: Assoc.Dict<string>, d: Assoc.Dict<Value>, attrs: Assoc.Dict<Value>, unmapped: seq<string>)
    returns (attrs': Assoc.Dict<Value>, next: seq<string>)
    requires |groups| > 0
    ensures Group(groups, d, attrs, unmapped) == Group(groups[1..], d, attrs', next)
    ensures GroupValue(groups, d, attrs, unmapped, 0) == Assoc.Get(attrs', groups[0].0)
    ensures forall k :: k != groups[0].0 ==> Assoc.Get(attrs', k) == Assoc.Get(attrs, k)
    ensures forall g :: 0 < g <= |groups| ==> Left(groups, d, unmapped, g) == Left(groups[1..], d, next, g - 1)
  {
    var c := Claim(groups[0].1, d, unmapped);
    attrs' := if |c.0| > 0 then Assoc.Put(attrs, groups[0].0, VDict(c.0)) else attrs;
    next := if |c.0| > 0 then c.1 else unmapped;
  }

  /** The first group's attribute is not touched by the groups after it. */
  lemma GroupSetsFirst(groups: Assoc.Dict<string>, d: Assoc.Dict<Value>, attrs: Assoc.Dict<Value>, unmapped: seq<string>)
    requires Assoc.DistinctKeys(groups) && 0 < |groups|
    ensures Assoc.Get(Group(groups, d, attrs, unmapped).0, groups[0].0) == GroupValue(groups, d, attrs, unmapped, 0)
  {
    var attrs', next := GroupStep(groups, d, attrs, unmapped);
    Assoc.DistinctHead(groups);
    GroupKeeps(groups[1..], d, attrs', next, groups[0].0);
  }

  /**
   * In a `__grouping__` dictionary (distinct group names), the group at
   * position `g` is set to the dictionary it claims when that is non-empty,
   * and keeps its value otherwise.
   */
  lemma GroupSets(groups: Assoc.Dict<string>, d: Assoc.Dict<Value>, attrs: Assoc.Dict<Value>, unmapped: seq<string>, g: nat)
    requires Assoc.DistinctKeys(groups) && g < |groups|
    ensures Assoc.Get(Group(groups, d, attrs, unmapped).0, groups[g].0) ==
              if |ClaimAt(groups, d, unmapped, g)| > 0 then Some(VDict(ClaimAt(groups, d, unmapped, g)))
              else Assoc.Get(attrs, groups[g].0)
  {
    GroupSetsAt(groups, d, attrs, unmapped, g);
  }

  /** `GroupSets`, by induction on the position of the group. */
  lemma {:induction false} GroupSetsAt(groups: Assoc.Dict<string>, d: Assoc.Dict<Value>, attrs: Assoc.Dict<Value>, unmapped: seq<string>, g: nat)
    requires Assoc.DistinctKeys(groups) && g < |groups|
    ensures Assoc.Get(Group(groups, d, attrs, unmapped).0, groups[g].0) == GroupValue(groups, d, attrs, unmapped, g)
    decreases g, 1
  {
    if g == 0 {
      GroupSetsFirst(groups, d, attrs, unmapped);
    } else {
      var attrs', next := GroupStep(groups, d, attrs, unmapped);
      GroupSetsTail(groups, d, attrs', next, g);
      assert groups[0].0 != groups[g].0;
      GroupValueShift(groups, d, attrs, attrs', unmapped, next, g);
    }
  }

  /** `GroupSetsAt` for the groups after the first. */
  lemma {:induction false} GroupSetsTail(groups: Assoc.Dict<string>, d: Assoc.Dict<Value>, attrs: Assoc.Dict<Value>, unmapped: seq<string>, g: nat)
    requires Assoc.DistinctKeys(groups) && 0 < g < |groups|
    ensures Assoc.Get(Group(groups[1..], d, attrs, unmapped).0, groups[g].0) == GroupValue(groups[1..], d, attrs, unmapped, g - 1)
    decreases g, 0
  {
    Assoc.DistinctTail(groups);
    assert groups[1..][g - 1] == groups[g];
    GroupSetsAt(groups[1..], d, attrs, unmapped, g - 1);
  }

  /** The value group `g` leaves is the value group `g - 1` leaves after the first group has run. */
  lemma GroupValueShift(groups: Assoc.Dict<string>, d: Assoc.Dict<Value>, attrs: Assoc.Dict<Value>, attrs': Assoc.Dict<Value>,
                        unmapped: seq<string>, next: seq<string>, g: nat)
    requires 0 < g < |groups| && Left(groups, d, unmapped, g) == Left(groups[1..], d, next, g - 1)
    requires Assoc.Get(attrs', groups[g].0) == Assoc.Get(attrs, groups[g].0)
    ensures GroupValue(groups, d, attrs, unmapped, g) == GroupValue(groups[1..], d, attrs', next, g - 1)
  {
    assert groups[1..][g - 1] == groups[g];
  }

  /** The "class doesn't contain property" problems, one per key left unmapped. */
  function Undeclared(n: string, d: Assoc.Dict<Value>, ks: seq<string>): (ps: seq<Problem>)
    ensures |ps| == |ks|
    ensures forall i :: 0 <= i < |ks| ==> ps[i].UndeclaredKey? && ps[i].key == ks[i]
  {
    seq(|ks|, i requires 0 <= i < |ks| => UndeclaredKey(n, ks[i], Assoc.Get(d, ks[i]).GetOr(VNone)))
  }

  /** The "doesn't contain type annotation" problems: class properties without an annotation. */
  function Unannotated(n: string, s: ClassSchema): (ps: seq<Problem>)
    ensures forall i :: 0 <= i < |ps| ==> ps[i].MissingAnnotation? && ps[i].owner == n
    ensures forall k :: (exists i :: 0 <= i < |ps| && ps[i] == MissingAnnotation(n, k)) <==>
                        Assoc.HasKey(Properties(s), k) && !Annotated(s, k)
  {
    UnannotatedOf(n, s, Properties(s))
  }

  function UnannotatedOf(n: string, s: ClassSchema, props: Assoc.Dict<Value>): (ps: seq<Problem>)
    ensures forall i :: 0 <= i < |ps| ==> ps[i].MissingAnnotation? && ps[i].owner == n
    ensures forall k :: (exists i :: 0 <= i < |ps| && ps[i] == MissingAnnotation(n, k)) <==>
                        Assoc.HasKey(props, k) && !Annotated(s, k)
  {
    if |props| == 0 then []
    else
      var rest := UnannotatedOf(n, s, props[1..]);
      assert forall k :: Assoc.HasKey(props, k) <==> k == props[0].0 || Assoc.HasKey(props[1..], k) by {
        forall k ensures Assoc.HasKey(props, k) <==> k == props[0].0 || Assoc.HasKey(props[1..], k) {
          if k != props[0].0 { Assoc.HasKeyTail(props, k); }
          else { assert props[0].0 == k; }
        }
      }
      if Annotated(s, props[0].0) then rest
      else
        var ps := [MissingAnnotation(n, props[0].0)] + rest;
        assert forall i :: 0 <= i < |rest| ==> ps[i + 1] == rest[i];
        assert ps[0] == MissingAnnotation(n, props[0].0);
        ps
  }

  /**
   * `C(serialized_obj, **kwargs)`: a same-class instance is copied (and the
   * keyword arguments ignored), keyword arguments are merged over the data,
   * no data at all gives an instance without attributes.
   */
  function New(t: Table, n: string, src: Value, kwargs: Assoc.Dict<Value>): (r: Result<Built, Failure>)
    requires n in t
    ensures src.VObj? ==> (r.Ok? <==> src.cls == n)
    ensures src.VObj? && src.cls == n ==> r.value == Built(src, [])
    ensures !src.VObj? && !src.VStr? && !src.VNone? && !src.VDict? ==> r == Err(Raised(AssertionError))
    ensures src.VNone? && |kwargs| == 0 ==> r == Ok(Built(VObj(n, []), []))
    ensures src.VDict? && |kwargs| == 0 ==> r == FromDict(t, n, src)
  {
    match src
    case VObj(c, _) => if c == n then Ok(Built(src, [])) else Err(Raised(AssertionError))
    case VStr(_) => Err(Raised(NotModelled(TextSource)))
    case VNone =>
      if |kwargs| > 0 then FromDict(t, n, VDict(Assoc.Update([], kwargs)))
      else Ok(Built(VObj(n, []), []))
    case VDict(entries) =>
      // an empty dictionary is replaced by a fresh empty one before the update
      if |kwargs| > 0 then FromDict(t, n, VDict(Assoc.Update(entries, kwargs)))
      else FromDict(t, n, src)
    case _ => Err(Raised(AssertionError))
  }

  // ------------------------------------------------------------ properties

  /** A null value is accepted for every kind of field: the field becomes None and nothing is recorded. */
  lemma NullForEveryKind(t: Table, owner: string, k: Kind)
    ensures Transform(t, owner, VNone, k) == Ok(Out(VNone, []))
  {
  }

  /**
   * The empty text is read as 0 wherever the property type is a number class:
   * an `int` field gets 0, but a `float` field, and a `list[int]` field, then
   * fail the type check with the value 0.
   */
  lemma EmptyTextReadsAsZero(t: Table, owner: string)
    ensures Transform(t, owner, VStr(""), Plain(IntT)) == Ok(Out(VInt(0), []))
    ensures Transform(t, owner, VStr(""), Plain(FloatT)) == Ok(Out(VNone, [ConflictingType(owner, "float", "int", VInt(0))]))
    ensures Transform(t, owner, VStr(""), ListOf(Plain(IntT))) == Ok(Out(VNone, [ConflictingType(owner, "int", "int", VInt(0))]))
  {
  }

  /** A value of the wrong class is recorded as a conflict and the field becomes None. */
  lemma ConflictingTypeRecorded(t: Table, owner: string, v: Value, c: PyClass)
    requires v != VNone && c != ListT && !IsInstance(v, c)
    requires !(c.UserClass? && c.name in t && v.VDict?)
    requires !(v == VStr("") && c in {IntT, FloatT, ComplexT})
    ensures Transform(t, owner, v, Plain(c)) ==
            Ok(Out(VNone, [ConflictingType(owner, ClassName(c), ClassName(ClassOf(v)), v)]))
  {
  }

  /** A value that already is an instance of the declared class is kept as it is. */
  lemma MatchingValueUnchanged(t: Table, owner: string, v: Value, c: PyClass)
    requires IsInstance(v, c) && c != DictT
    ensures Transform(t, owner, v, Plain(c)) == Ok(Out(v, []))
  {
  }

  /**
   * A native union keeps a value that is an instance of any alternative, so
   * the order of the alternatives never matters; any other value makes
   * `issubclass` raise TypeError.
   */
  lemma UnionOfClasses(t: Table, owner: string, v: Value, alts: seq<PyClass>)
    ensures (exists i :: 0 <= i < |alts| && IsInstance(v, alts[i])) ==>
            Transform(t, owner, v, UnionOf(alts)) == Ok(Out(v, []))
    ensures v != VNone && (forall i :: 0 <= i < |alts| ==> !IsInstance(v, alts[i])) ==>
            Transform(t, owner, v, UnionOf(alts)) == Err(Raised(TypeError))
  {
  }

  /** A dictionary given for a mapped class becomes an instance of that class. */
  lemma NestedClassFromDict(t: Table, owner: string, v: Value, n: string)
    requires n in t && v.VDict?
    ensures Transform(t, owner, v, Plain(UserClass(n))) ==
            (match FromDict(t, n, v) case Ok(b) => Ok(Out(b.obj, [])) case Err(f) => Err(f))
  {
    var k := Plain(UserClass(n));
    assert IsMappedClass(t, k) == Ok(true);
    assert !OriginInstance(v, k);
    assert Transform(t, owner, v, k) == Convert(t, owner, v, k);
    assert Instantiate(t, n, v) == FromDict(t, n, v);
    assert Construct(t, k, v) == (match FromDict(t, n, v) case Ok(b) => Ok(b.obj) case Err(f) => Err(f));
  }

  /** `dict[K, V]` keeps every key, in order, and transforms each value against `V`. */
  lemma {:induction false} DictOfTransformsValues(t: Table, owner: string, v: Value, key: PyClass, vk: Kind)
    requires v.VDict? && Transform(t, owner, v, DictOf(key, vk)).Ok?
    ensures var r := Transform(t, owner, v, DictOf(key, vk)).value.value;
            && r.VDict? && |r.entries| == |v.entries|
            && forall i :: 0 <= i < |v.entries| ==>
                 && r.entries[i].0 == v.entries[i].0
                 && Transform(t, owner, v.entries[i].1, vk).Ok?
                 && r.entries[i].1 == Transform(t, owner, v.entries[i].1, vk).value.value
  {
    EntriesTransformed(t, owner, v, Some(vk), |v.entries|);
  }

  lemma {:induction false} EntriesTransformed(t: Table, owner: string, v: Value, vk: Option<Kind>, n: nat)
    requires v.VDict? && n <= |v.entries| && TransformEntries(t, owner, v, vk, n).Ok?
    ensures var r := TransformEntries(t, owner, v, vk, n).value.0;
            && |r| == n
            && forall i :: 0 <= i < n ==>
                 var x := v.entries[i].1;
                 var xk := EntryKind(vk, x);
                 && r[i].0 == v.entries[i].0
                 && Transform(t, owner, x, xk).Ok?
                 && r[i].1 == Transform(t, owner, x, xk).value.value
  {
    if n > 0 {
      EntriesTransformed(t, owner, v, vk, n - 1);
    }
  }

  /** A bare `dict` field keeps a dictionary as it is, however deeply nested. */
  lemma {:induction false} PlainDictUnchanged(t: Table, owner: string, v: Value)
    requires v.VDict?
    ensures Transform(t, owner, v, Plain(DictT)) == Ok(Out(v, []))
    decreases v, 1, 0
  {
    PlainEntriesUnchanged(t, owner, v, |v.entries|);
    assert v.entries[..|v.entries|] == v.entries;
  }

  lemma {:induction false} PlainEntriesUnchanged(t: Table, owner: string, v: Value, n: nat)
    requires v.VDict? && n <= |v.entries|
    ensures TransformEntries(t, owner, v, None, n) == Ok((v.entries[..n], []))
    decreases v, 0, n
  {
    if n > 0 {
      PlainEntriesUnchanged(t, owner, v, n - 1);
      var x := v.entries[n - 1].1;
      if x.VDict? {
        PlainDictUnchanged(t, owner, x);
      } else {
        MatchingValueUnchanged(t, owner, x, ClassOf(x));
      }
      var none: Option<Kind> := None;
      assert Transform(t, owner, x, EntryKind(none, x)) == Ok(Out(x, []));
      assert TransformEntries(t, owner, v, none, n).Ok?;
      assert TransformEntries(t, owner, v, none, n).value.1 == [];
      assert TransformEntries(t, owner, v, none, n) == Ok((v.entries[..n - 1] + [(v.entries[n - 1].0, x)], []));
      assert v.entries[..n - 1] + [(v.entries[n - 1].0, x)] == v.entries[..n];
    }
  }

  /**
   * `list[T]` calls `T` on every element: the field is built exactly when
   * every call succeeds, and then holds the results in order.
   */
  lemma {:induction false} ListOfConstructsEach(t: Table, owner: string, items: seq<Value>, e: Kind)
    ensures Transform(t, owner, VList(items), ListOf(e)).Ok? <==> forall i :: 0 <= i < |items| ==> Construct(t, e, items[i]).Ok?
    ensures Transform(t, owner, VList(items), ListOf(e)).Ok? ==>
            var r := Transform(t, owner, VList(items), ListOf(e)).value;
            && r.problems == [] && r.value.VList? && |r.value.items| == |items|
            && forall i :: 0 <= i < |items| ==> Construct(t, e, items[i]) == Ok(r.value.items[i])
  {
    ConstructedAll(t, e, VList(items), |items|);
  }

  lemma {:induction false} ConstructedAll(t: Table, e: Kind, v: Value, n: nat)
    requires v.VList? && n <= |v.items|
    ensures ConstructAll(t, e, v, n).Ok? <==> forall i :: 0 <= i < n ==> Construct(t, e, v.items[i]).Ok?
    ensures ConstructAll(t, e, v, n).Ok? ==>
            && |ConstructAll(t, e, v, n).value| == n
            && forall i :: 0 <= i < n ==> Construct(t, e, v.items[i]) == Ok(ConstructAll(t, e, v, n).value[i])
  {
    ConstructedAllOk(t, e, v, n);
    if ConstructAll(t, e, v, n).Ok? {
      ConstructedAllValues(t, e, v, n);
    }
  }

  /** The first `n` elements are built exactly when each of them is. */
  lemma {:induction false} ConstructedAllOk(t: Table, e: Kind, v: Value, n: nat)
    requires v.VList? && n <= |v.items|
    ensures ConstructAll(t, e, v, n).Ok? <==> forall i :: 0 <= i < n ==> Construct(t, e, v.items[i]).Ok?
  {
    if n > 0 {
      ConstructedAllOk(t, e, v, n - 1);
      ConstructAllStep(t, e, v, n);
    }
  }

  /** Once built, the first `n` elements are each element's own construction. */
  lemma {:induction false} ConstructedAllValues(t: Table, e: Kind, v: Value, n: nat)
    requires v.VList? && n <= |v.items| && ConstructAll(t, e, v, n).Ok?
    ensures |ConstructAll(t, e, v, n).value| == n
    ensures forall i :: 0 <= i < n ==> Construct(t, e, v.items[i]) == Ok(ConstructAll(t, e, v, n).value[i])
  {
    if n > 0 {
      ConstructAllStep(t, e, v, n);
      ConstructedAllValues(t, e, v, n - 1);
      var front := ConstructAll(t, e, v, n - 1).value;
      var all := ConstructAll(t, e, v, n).value;
      assert all == front + [Construct(t, e, v.items[n - 1]).value];
      forall i | 0 <= i < n ensures Construct(t, e, v.items[i]) == Ok(all[i]) {
        if i < n - 1 {
          assert all[i] == front[i];
        }
      }
    }
  }

  /** The first `n` elements are built when the first `n - 1` are and the `n`-th is. */
  lemma ConstructAllStep(t: Table, e: Kind, v: Value, n: nat)
    requires v.VList? && 0 < n <= |v.items|
    ensures ConstructAll(t, e, v, n).Ok? <==> ConstructAll(t, e, v, n - 1).Ok? && Construct(t, e, v.items[n - 1]).Ok?
    ensures ConstructAll(t, e, v, n).Ok? ==>
              ConstructAll(t, e, v, n).value == ConstructAll(t, e, v, n - 1).value + [Construct(t, e, v.items[n - 1]).value]
  {
  }

  /** A field whose key is absent takes the class default, or raises KeyError when the class has none. */
  lemma AbsentKeyTakesDefault(t: Table, n: string, d: Value, name: string, k: Kind)
    requires n in t && d.VDict? && !IsDunder(name) && name !in t[n].ignored
    requires !Assoc.HasKey(d.entries, ResolveKey(t[n], name, d.entries))
    ensures Default(t[n], name).Some? ==> FieldValue(t, n, d, name, k) == Ok(Some(Out(Default(t[n], name).value, [])))
    ensures Default(t[n], name).None? ==> FieldValue(t, n, d, name, k) == Err(Raised(KeyError(name)))
  {
  }

  /** A field whose key is present is the transformed data value. */
  lemma PresentKeyIsTransformed(t: Table, n: string, d: Value, name: string, k: Kind, v: Value)
    requires n in t && d.VDict? && !IsDunder(name) && name !in t[n].ignored
    requires Assoc.Get(d.entries, ResolveKey(t[n], name, d.entries)) == Some(v)
    ensures FieldValue(t, n, d, name, k) ==
            (match Transform(t, n, v, k) case Ok(o) => Ok(Some(o)) case Err(f) => Err(f))
  {
  }

  /** Dunder and ignored annotations are never read or set. */
  lemma SkippedFields(t: Table, n: string, d: Value, name: string, k: Kind)
    requires n in t && d.VDict? && (IsDunder(name) || name in t[n].ignored)
    ensures FieldValue(t, n, d, name, k) == Ok(None)
  {
  }

  /** Each field the loop sets holds the value computed for it (field names being distinct). */
  lemma {:induction false} FieldsStoreValues(t: Table, n: string, d: Value, m: nat, j: nat, o: Out)
    requires n in t && d.VDict? && j < m <= |t[n].annotations| && Assoc.DistinctKeys(t[n].annotations)
    requires Fields(t, n, d, m).Ok?
    requires FieldValue(t, n, d, t[n].annotations[j].0, t[n].annotations[j].1) == Ok(Some(o))
    ensures Assoc.Get(Fields(t, n, d, m).value.0, t[n].annotations[j].0) == Some(o.value)
  {
    var a := t[n].annotations;
    if j < m - 1 {
      assert a[j].0 != a[m - 1].0;
      FieldsKeep(t, n, d, m, a[j].0);
      FieldsStoreValues(t, n, d, m - 1, j, o);
    } else {
      FieldsLast(t, n, d, m, o);
    }
  }

  /** A step of the annotation loop leaves the other fields alone. */
  lemma FieldsKeep(t: Table, n: string, d: Value, m: nat, k: string)
    requires n in t && d.VDict? && 0 < m <= |t[n].annotations| && Fields(t, n, d, m).Ok?
    requires k != t[n].annotations[m - 1].0
    ensures Fields(t, n, d, m - 1).Ok?
    ensures Assoc.Get(Fields(t, n, d, m).value.0, k) == Assoc.Get(Fields(t, n, d, m - 1).value.0, k)
  {
  }

  /** A step of the annotation loop sets its field to the value computed for it. */
  lemma FieldsLast(t: Table, n: string, d: Value, m: nat, o: Out)
    requires n in t && d.VDict? && 0 < m <= |t[n].annotations| && Fields(t, n, d, m).Ok?
    requires FieldValue(t, n, d, t[n].annotations[m - 1].0, t[n].annotations[m - 1].1) == Ok(Some(o))
    ensures Assoc.Get(Fields(t, n, d, m).value.0, t[n].annotations[m - 1].0) == Some(o.value)
  {
  }

  /**
   * Strict mode: once the fields are read, construction succeeds exactly when
   * no conflict was recorded, every class property is annotated, and every
   * data key is declared, an alias, or claimed by a group suffix.
   */
  lemma StrictAggregates(t: Table, n: string, d: Value)
    requires n in t && d.VDict? && t[n].strict
    requires Fields(t, n, d, |t[n].annotations|).Ok?
    ensures var s := t[n];
            FromDict(t, n, d).Ok? <==>
              && |Fields(t, n, d, |s.annotations|).value.1| == 0
              && (forall k :: !(Assoc.HasKey(Properties(s), k) && !Annotated(s, k)))
              && (forall k :: Assoc.HasKey(d.entries, k) ==>
                    Annotated(s, k) || IsAlias(s, k) || exists g :: 0 <= g < |s.grouping| && EndsWith(k, s.grouping[g].1))
    ensures FromDict(t, n, d).Err? ==> FromDict(t, n, d).error.Invalid?
  {
    var s := t[n];
    var f := Fields(t, n, d, |s.annotations|).value;
    var g := Group(s.grouping, d.entries, f.0, Unmapped(s, d.entries));
    var un := Unannotated(n, s);
    if |un| > 0 {
      assert un[0] == MissingAnnotation(n, un[0].name);
    }
    if |g.1| > 0 {
      assert g.1[0] in g.1;
    }
  }

  /** A non-strict class never raises the aggregated error: it keeps its conflicts instead. */
  lemma NonStrictKeepsProblems(t: Table, n: string, d: Value)
    requires n in t && d.VDict? && !t[n].strict
    ensures Fields(t, n, d, |t[n].annotations|).Err? ==> FromDict(t, n, d) == Err(Fields(t, n, d, |t[n].annotations|).error)
    ensures Fields(t, n, d, |t[n].annotations|).Ok? ==>
            FromDict(t, n, d).Ok? && FromDict(t, n, d).value.problems == Fields(t, n, d, |t[n].annotations|).value.1
  {
  }

  /**
   * Keyword arguments given with a dictionary, or with no data, are merged
   * into it before it is read: the merged data holds every keyword argument
   * with its last value and keeps every other key of the dictionary.
   */
  lemma NewMerges(t: Table, n: string, src: Value, kwargs: Assoc.Dict<Value>) returns (m: Assoc.Dict<Value>)
    requires n in t && (src.VNone? || src.VDict?) && |kwargs| > 0
    ensures New(t, n, src, kwargs) == FromDict(t, n, VDict(m))
    ensures forall k :: Assoc.HasKey(kwargs, k) ==> Assoc.Get(m, k) == Assoc.GetLast(kwargs, k)
    ensures forall k :: !Assoc.HasKey(kwargs, k) ==> Assoc.Get(m, k) == (if src.VDict? then Assoc.Get(src.entries, k) else None)
  {
    m := Assoc.Update(if src.VDict? then src.entries else [], kwargs);
  }

  /**
   * Building from a dictionary with keyword arguments is building from the
   * dictionary updated with them, whether or not there are any.
   */
  lemma NewIsUpdate(t: Table, n: string, d: Assoc.Dict<Value>, kwargs: Assoc.Dict<Value>)
    requires n in t
    ensures New(t, n, VDict(d), kwargs) == New(t, n, VDict(Assoc.Update(d, kwargs)), [])
  {
  }

  /** `__deserialize` builds an instance of its own class, and a strict class that builds keeps no problem. */
  lemma FromDictBuilds(t: Table, n: string, d: Value)
    requires n in t && d.VDict?
    ensures FromDict(t, n, d).Ok? ==> FromDict(t, n, d).value.obj.VObj? && FromDict(t, n, d).value.obj.cls == n
    ensures FromDict(t, n, d).Ok? && t[n].strict ==> FromDict(t, n, d).value.problems == []
  {
  }

  /** The transformation's `C(x)` is the constructor called without keyword arguments. */
  lemma InstantiateIsNew(t: Table, n: string, x: Value)
    requires n in t
    ensures Instantiate(t, n, x) == New(t, n, x, [])
  {
  }
}
