/**
 * `SerializableObject.serialize(minimal)`: the instance's attributes over the
 * class defaults, without hidden, ignored and callable entries, aliased
 * fields under their external key, group dictionaries spread to the top
 * level, and every nested mapped instance serialised in turn.
 */
module Serialization {
  import opened Outcomes
  import opened Text
  import opened PyValue
  import opened Schema
  import Assoc

  // ---------------------------------------------------------- nesting depth

  /** How deeply instances nest inside `v`: plain data has depth 0. */
  function Depth(v: Value): nat
    decreases v, 1, 0
  {
    match v
    case VList(items) => ItemsDepth(v, |items|)
    case VDict(entries) => EntriesDepth(v, |entries|)
    case VObj(_, attrs) => 1 + EntriesDepth(v, |attrs|)
    case _ => 0
  }

  function Max(a: nat, b: nat): nat {
    if a < b then b else a
  }

  function ItemsDepth(v: Value, n: nat): nat
    requires v.VList? && n <= |v.items|
    decreases v, 0, n
  {
    if n == 0 then 0 else Max(ItemsDepth(v, n - 1), Depth(v.items[n - 1]))
  }

  /** The pairs of a dictionary or the attributes of an instance. */
  function Pairs(v: Value): Assoc.Dict<Value> {
    match v
    case VDict(entries) => entries
    case VObj(_, attrs) => attrs
    case _ => []
  }

  function EntriesDepth(v: Value, n: nat): nat
    requires (v.VDict? || v.VObj?) && n <= |Pairs(v)|
    decreases v, 0, n
  {
    if n == 0 then 0
    else match v
      case VDict(entries) => Max(EntriesDepth(v, n - 1), Depth(entries[n - 1].1))
      case VObj(_, attrs) => Max(EntriesDepth(v, n - 1), Depth(attrs[n - 1].1))
  }

  lemma {:induction false} ItemsDepthBound(v: Value, n: nat, b: nat)
    requires v.VList? && n <= |v.items|
    ensures forall i :: 0 <= i < n ==> Depth(v.items[i]) <= ItemsDepth(v, n)
    ensures (forall i :: 0 <= i < n ==> Depth(v.items[i]) <= b) ==> ItemsDepth(v, n) <= b
  {
    if n > 0 {
      ItemsDepthBound(v, n - 1, b);
    }
  }

  lemma {:induction false} EntriesDepthBound(v: Value, n: nat, b: nat)
    requires (v.VDict? || v.VObj?) && n <= |Pairs(v)|
    ensures forall i :: 0 <= i < n ==> Depth(Pairs(v)[i].1) <= EntriesDepth(v, n)
    ensures (forall i :: 0 <= i < n ==> Depth(Pairs(v)[i].1) <= b) ==> EntriesDepth(v, n) <= b
  {
    if n > 0 {
      EntriesDepthBound(v, n - 1, b);
    }
  }

  /** A dictionary is exactly as deep as its deepest value; an instance is one deeper than its attributes. */
  lemma DictDepth(es: Assoc.Dict<Value>, b: nat)
    ensures forall i :: 0 <= i < |es| ==> Depth(es[i].1) <= Depth(VDict(es))
    ensures (forall i :: 0 <= i < |es| ==> Depth(es[i].1) <= b) ==> Depth(VDict(es)) <= b
  {
    EntriesDepthBound(VDict(es), |es|, b);
  }

  lemma ObjDepth(c: string, attrs: Assoc.Dict<Value>)
    ensures forall i :: 0 <= i < |attrs| ==> Depth(attrs[i].1) < Depth(VObj(c, attrs))
  {
    EntriesDepthBound(VObj(c, attrs), |attrs|, 0);
  }

  // ------------------------------------------------------- gathering fields

  predicate Bounded(a: Attr, b: nat) {
    a.Data? ==> Depth(a.value) <= b
  }

  predicate AllBounded(d: Assoc.Dict<Attr>, b: nat) {
    forall i :: 0 <= i < |d| ==> Bounded(d[i].1, b)
  }

  lemma BoundedValues(d: Assoc.Dict<Attr>, b: nat)
    ensures AllBounded(d, b) <==> forall x :: x in Assoc.ValueSet(d) ==> Bounded(x, b)
  {
    if forall x :: x in Assoc.ValueSet(d) ==> Bounded(x, b) {
      forall i | 0 <= i < |d| ensures Bounded(d[i].1, b) {
        assert d[i].1 in Assoc.ValueSet(d);
      }
    }
  }

  /** Instance attributes as entries of a class `__dict__`. */
  function Wrap(attrs: Assoc.Dict<Value>): (r: Assoc.Dict<Attr>)
    ensures |r| == |attrs|
    ensures forall i :: 0 <= i < |attrs| ==> r[i] == (attrs[i].0, Data(attrs[i].1))
  {
    seq(|attrs|, i requires 0 <= i < |attrs| => (attrs[i].0, Data(attrs[i].1)))
  }

  lemma WrapKeys(attrs: Assoc.Dict<Value>)
    ensures forall k :: Assoc.HasKey(Wrap(attrs), k) <==> Assoc.HasKey(attrs, k)
    ensures forall k :: Assoc.GetLast(Wrap(attrs), k) == (match Assoc.GetLast(attrs, k) case Some(v) => Some(Data(v)) case None => None)
  {
    forall k ensures Assoc.HasKey(Wrap(attrs), k) <==> Assoc.HasKey(attrs, k) {
      if Assoc.HasKey(attrs, k) {
        var i :| 0 <= i < |attrs| && attrs[i].0 == k;
        assert Wrap(attrs)[i].0 == k;
      }
    }
    forall k ensures Assoc.GetLast(Wrap(attrs), k) == (match Assoc.GetLast(attrs, k) case Some(v) => Some(Data(v)) case None => None) {
      WrapGetLast(attrs, k);
    }
  }

  lemma {:induction false} WrapGetLast(attrs: Assoc.Dict<Value>, k: string)
    ensures Assoc.GetLast(Wrap(attrs), k) == (match Assoc.GetLast(attrs, k) case Some(v) => Some(Data(v)) case None => None)
  {
    if |attrs| > 0 && attrs[|attrs| - 1].0 != k {
      WrapGetLast(attrs[..|attrs| - 1], k);
      assert Wrap(attrs)[..|attrs| - 1] == Wrap(attrs[..|attrs| - 1]);
    }
  }

  /** `dict(cls.__dict__)` updated with `dict(self.__dict__)`: an instance value overrides the class default. */
  function Merge(s: ClassSchema, attrs: Assoc.Dict<Value>): (all: Assoc.Dict<Attr>)
    ensures forall k :: Assoc.HasKey(attrs, k) ==> Assoc.Get(all, k) == Some(Data(Assoc.GetLast(attrs, k).value))
    ensures forall k :: !Assoc.HasKey(attrs, k) ==> Assoc.Get(all, k) == Assoc.Get(s.body, k)
  {
    WrapKeys(attrs);
    Assoc.Update(s.body, Wrap(attrs))
  }

  /** The entries the property filter of `serialize` keeps (static methods are not filtered). */
  predicate Shown(s: ClassSchema, k: string, a: Attr) {
    && !IsDunder(k)
    && !(StartsWith(k, "_") && Contains(k, "__"))
    && k !in s.ignored
    && !a.Function? && !a.Property? && !a.ClassMethod?
    && !Assoc.HasKey(s.mapping, k)
    && !Assoc.HasKey(s.grouping, k)
  }

  function Visible(s: ClassSchema, all: Assoc.Dict<Attr>): (r: Assoc.Dict<Attr>)
    ensures |r| <= |all|
    ensures forall i :: 0 <= i < |r| ==> exists j :: 0 <= j < |all| && all[j] == r[i] && Shown(s, r[i].0, r[i].1)
    ensures forall j :: 0 <= j < |all| && Shown(s, all[j].0, all[j].1) ==> all[j] in r
  {
    if |all| == 0 then []
    else
      var rest := Visible(s, all[1..]);
      assert forall j :: 1 <= j < |all| ==> all[j] == all[1..][j - 1];
      if Shown(s, all[0].0, all[0].1) then
        var r := [all[0]] + rest;
        assert forall i :: 1 <= i < |r| ==> r[i] == rest[i - 1];
        r
      else rest
  }

  /** `{alias: all[p] for p, alias in __mapping__ if p in all}`. */
  function Aliased(mapping: Assoc.Dict<string>, all: Assoc.Dict<Attr>): (r: Assoc.Dict<Attr>)
    ensures forall i :: 0 <= i < |r| ==> exists j :: 0 <= j < |all| && all[j].1 == r[i].1
    ensures forall a :: Assoc.HasKey(r, a) <==> exists i :: 0 <= i < |mapping| && mapping[i].1 == a && Assoc.HasKey(all, mapping[i].0)
  {
    if |mapping| == 0 then []
    else
      var front := Aliased(mapping[..|mapping| - 1], all);
      var p := mapping[|mapping| - 1];
      assert forall i :: 0 <= i < |mapping| - 1 ==> mapping[i] == mapping[..|mapping| - 1][i];
      match Assoc.Get(all, p.0)
      case None => front
      case Some(a) =>
        var r := front + [(p.1, a)];
        assert r[|front|] == (p.1, a);
        assert forall i :: 0 <= i < |front| ==> r[i] == front[i];
        assert forall x :: Assoc.HasKey(r, x) <==> Assoc.HasKey(front, x) || x == p.1;
        r
  }

  /** The dictionary stored under the group key `k`, if there is one. */
  function GroupOf(all: Assoc.Dict<Attr>, k: string): (r: Option<Assoc.Dict<Value>>)
    ensures r.Some? <==> Assoc.Get(all, k).Some? && Assoc.Get(all, k).value.Data? && Assoc.Get(all, k).value.value.VDict?
    ensures r.Some? ==> Assoc.Get(all, k) == Some(Data(VDict(r.value)))
  {
    match Assoc.Get(all, k)
    case Some(a) => if a.Data? && a.value.VDict? then Some(a.value.entries) else None
    case None => None
  }

  /** The group dictionaries, spread to the top level one after the other. */
  function Spread(groups: seq<string>, all: Assoc.Dict<Attr>, props: Assoc.Dict<Attr>): Assoc.Dict<Attr>
  {
    if |groups| == 0 then props
    else
      var next := match GroupOf(all, groups[0])
                  case Some(es) => Assoc.Update(props, Wrap(es))
                  case None => props;
      Spread(groups[1..], all, next)
  }

  function Plainly(d: Assoc.Dict<Attr>): (r: Result<Assoc.Dict<Value>, Exc>)
    ensures r.Ok? <==> forall i :: 0 <= i < |d| ==> d[i].1.Data?
    ensures r.Ok? ==> |r.value| == |d| && forall i :: 0 <= i < |d| ==> d[i] == (r.value[i].0, Data(r.value[i].1))
  {
    if |d| == 0 then Ok([])
    else
      var front :- Plainly(d[..|d| - 1]);
      var last := d[|d| - 1];
      if last.1.Data? then Ok(front + [(last.0, last.1.value)])
      else Err(NotModelled("a callable in the serialised output"))
  }

  /** The class defaults are plain data (a nested instance as a class default is not modelled). */
  predicate PlainDefaults(s: ClassSchema) {
    forall i :: 0 <= i < |s.body| ==> Bounded(s.body[i].1, 0)
  }

  /** The dictionary `serialize` hands to the transformation, before that transformation. */
  function Gather(s: ClassSchema, attrs: Assoc.Dict<Value>): Result<Assoc.Dict<Value>, Exc> {
    if !PlainDefaults(s) then Err(NotModelled("instances as class defaults"))
    else
      var all := Merge(s, attrs);
      var props := Assoc.Update(Visible(s, all), Aliased(s.mapping, all));
      Plainly(Spread(Assoc.Keys(s.grouping), all, props))
  }

  lemma {:induction false} SpreadBounded(groups: seq<string>, all: Assoc.Dict<Attr>, props: Assoc.Dict<Attr>, b: nat)
    requires AllBounded(all, b) && AllBounded(props, b)
    ensures AllBounded(Spread(groups, all, props), b)
    decreases |groups|
  {
    if |groups| > 0 {
      match GroupOf(all, groups[0])
      case Some(es) =>
        var i :| 0 <= i < |all| && all[i] == (groups[0], Data(VDict(es)));
        assert Bounded(all[i].1, b);
        DictDepth(es, b);
        var w := Wrap(es);
        assert AllBounded(w, b);
        Assoc.UpdateValues(props, w);
        BoundedValues(props, b);
        BoundedValues(w, b);
        BoundedValues(Assoc.Update(props, w), b);
        SpreadBounded(groups[1..], all, Assoc.Update(props, w), b);
      case None =>
        SpreadBounded(groups[1..], all, props, b);
    }
  }

  /** Every value `Gather` collects is at most as deep as the instance's attributes. */
  lemma GatherDepth(s: ClassSchema, c: string, attrs: Assoc.Dict<Value>)
    requires Gather(s, attrs).Ok?
    ensures Depth(VDict(Gather(s, attrs).value)) < Depth(VObj(c, attrs))
  {
    var o := VObj(c, attrs);
    var b := EntriesDepth(o, |attrs|);
    EntriesDepthBound(o, |attrs|, b);
    var w := Wrap(attrs);
    assert AllBounded(w, b);
    assert AllBounded(s.body, b);
    var all := Merge(s, attrs);
    Assoc.UpdateValues(s.body, w);
    BoundedValues(s.body, b);
    BoundedValues(w, b);
    BoundedValues(all, b);
    var vis := Visible(s, all);
    assert AllBounded(vis, b);
    var al := Aliased(s.mapping, all);
    assert AllBounded(al, b);
    var props := Assoc.Update(vis, al);
    Assoc.UpdateValues(vis, al);
    BoundedValues(vis, b);
    BoundedValues(al, b);
    BoundedValues(props, b);
    SpreadBounded(Assoc.Keys(s.grouping), all, props, b);
    var r := Gather(s, attrs).value;
    DictDepth(r, b);
  }

  // ------------------------------------------------------------- transform

  /** `__serialize_transform(item, minimal)`. */
  function SerializeValue(t: Table, v: Value, minimal: bool): (r: Result<Value, Exc>)
    ensures r.Ok? && v.VDict? ==> r.value.VDict?
    ensures r.Ok? && v.VList? ==> r.value.VList?
    decreases Depth(v), v, 1, 0
  {
    match v
    case VObj(c, attrs) => if c in t then Serialize(t, v, minimal) else Ok(v)
    case VList(items) =>
      var xs :- SerializeItems(t, v, minimal, |items|);
      Ok(VList(xs))
    case VDict(entries) =>
      var es :- SerializeEntries(t, v, minimal, |entries|);
      Ok(VDict(es))
    case _ => Ok(v)
  }

  /** `serialize(minimal)` of the instance `obj` of a mapped class. */
  function Serialize(t: Table, obj: Value, minimal: bool): (r: Result<Value, Exc>)
    requires obj.VObj? && obj.cls in t
    ensures r.Ok? ==> r.value.VDict?
    decreases Depth(obj), obj, 0, 0
  {
    var props :- Gather(t[obj.cls], obj.attrs);
    GatherDepth(t[obj.cls], obj.cls, obj.attrs);
    SerializeValue(t, VDict(props), minimal)
  }

  function SerializeItems(t: Table, v: Value, minimal: bool, n: nat): Result<seq<Value>, Exc>
    requires v.VList? && n <= |v.items|
    decreases Depth(v), v, 0, n
  {
    if n == 0 then Ok([])
    else
      var front :- SerializeItems(t, v, minimal, n - 1);
      ItemsDepthBound(v, |v.items|, 0);
      var x :- SerializeValue(t, v.items[n - 1], minimal);
      Ok(front + [x])
  }

  /** The dictionary branch: with `minimal`, entries whose value is falsy are dropped. */
  function SerializeEntries(t: Table, v: Value, minimal: bool, n: nat): Result<Assoc.Dict<Value>, Exc>
    requires v.VDict? && n <= |v.entries|
    decreases Depth(v), v, 0, n
  {
    if n == 0 then Ok([])
    else
      var front :- SerializeEntries(t, v, minimal, n - 1);
      var e := v.entries[n - 1];
      if minimal && !Truthy(e.1) then Ok(front)
      else
        DictDepth(v.entries, 0);
        var x :- SerializeValue(t, e.1, minimal);
        Ok(front + [(e.0, x)])
  }
}

module SerializationFacts {
  import opened Outcomes
  import opened Text
  import opened PyValue
  import opened Schema
  import opened Serialization
  import Assoc

  // ------------------------------------------------------ reading entries

  lemma {:induction false} VisibleGet(s: ClassSchema, all: Assoc.Dict<Attr>, k: string)
    requires Assoc.DistinctKeys(all)
    ensures Assoc.Get(Visible(s, all), k) == (match Assoc.Get(all, k) case Some(a) => if Shown(s, k, a) then Some(a) else None case None => None)
  {
    if |all| > 0 {
      assert Assoc.DistinctKeys(all[1..]) by {
        forall i, j | 0 <= i < j < |all[1..]| ensures all[1..][i].0 != all[1..][j].0 {
          assert all[1..][i] == all[i + 1] && all[1..][j] == all[j + 1];
        }
      }
      VisibleGet(s, all[1..], k);
      if all[0].0 == k {
        assert !Assoc.HasKey(all[1..], k) by {
          forall i | 0 <= i < |all[1..]| ensures all[1..][i].0 != k {
            assert all[1..][i] == all[i + 1];
          }
        }
      }
    }
  }

  lemma {:induction false} PlainlyGet(d: Assoc.Dict<Attr>, r: Assoc.Dict<Value>, k: string)
    requires |r| == |d| && forall i :: 0 <= i < |d| ==> d[i] == (r[i].0, Data(r[i].1))
    ensures Assoc.Get(d, k) == (match Assoc.Get(r, k) case Some(x) => Some(Data(x)) case None => None)
  {
    if |d| > 0 {
      PlainlyGet(d[1..], r[1..], k);
    }
  }

  lemma MergeDistinct(s: ClassSchema, attrs: Assoc.Dict<Value>)
    requires Assoc.DistinctKeys(s.body)
    ensures Assoc.DistinctKeys(Merge(s, attrs))
  {
    Assoc.UpdateValues(s.body, Wrap(attrs));
  }

  // --------------------------------------------------- what serialize shows

  /** The dictionary under group key `g` holds the key `k`, so spreading it sets `k`. */
  predicate Spreads(all: Assoc.Dict<Attr>, g: string, k: string) {
    GroupOf(all, g).Some? && Assoc.HasKey(GroupOf(all, g).value, k)
  }

  /** No group dictionary of the class holds the key `k`. */
  predicate NotSpread(s: ClassSchema, all: Assoc.Dict<Attr>, k: string) {
    forall i :: 0 <= i < |s.grouping| ==> !Spreads(all, s.grouping[i].0, k)
  }

  /** No attribute that is present is renamed to `k`. */
  predicate NotRenamedTo(s: ClassSchema, all: Assoc.Dict<Attr>, k: string) {
    forall i :: 0 <= i < |s.mapping| && s.mapping[i].1 == k ==> !Assoc.HasKey(all, s.mapping[i].0)
  }

  /** Spreading group dictionaries that do not hold `k` leaves `k` as it was. */
  lemma {:induction false} SpreadKeeps(groups: seq<string>, all: Assoc.Dict<Attr>, props: Assoc.Dict<Attr>, k: string)
    requires forall i :: 0 <= i < |groups| ==> !Spreads(all, groups[i], k)
    ensures Assoc.Get(Spread(groups, all, props), k) == Assoc.Get(props, k)
    decreases |groups|
  {
    if |groups| > 0 {
      assert !Spreads(all, groups[0], k);
      var next := match GroupOf(all, groups[0])
                  case Some(es) => Assoc.Update(props, Wrap(es))
                  case None => props;
      if GroupOf(all, groups[0]).Some? {
        WrapKeys(GroupOf(all, groups[0]).value);
      }
      assert Assoc.Get(next, k) == Assoc.Get(props, k);
      assert forall i :: 0 <= i < |groups[1..]| ==> groups[1..][i] == groups[i + 1];
      SpreadKeeps(groups[1..], all, next, k);
    }
  }

  /** The last group dictionary that holds `k` gives `k` its value. */
  lemma {:induction false} SpreadLast(groups: seq<string>, all: Assoc.Dict<Attr>, props: Assoc.Dict<Attr>, k: string, g: nat, es: Assoc.Dict<Value>)
    requires g < |groups| && GroupOf(all, groups[g]) == Some(es) && Assoc.HasKey(es, k)
    requires forall h :: g < h < |groups| ==> !Spreads(all, groups[h], k)
    ensures Assoc.Get(Spread(groups, all, props), k) == Some(Data(Assoc.GetLast(es, k).value))
    decreases g
  {
    var next := match GroupOf(all, groups[0])
                case Some(e0) => Assoc.Update(props, Wrap(e0))
                case None => props;
    assert Spread(groups, all, props) == Spread(groups[1..], all, next);
    assert forall i :: 0 <= i < |groups[1..]| ==> groups[1..][i] == groups[i + 1];
    if g == 0 {
      WrapKeys(es);
      assert Assoc.Get(next, k) == Some(Data(Assoc.GetLast(es, k).value));
      SpreadKeeps(groups[1..], all, next, k);
    } else {
      SpreadLast(groups[1..], all, next, k, g - 1, es);
    }
  }

  /** The alias of a present attribute reads that attribute's value, when no later entry reuses the alias. */
  lemma {:induction false} AliasedValue(mapping: Assoc.Dict<string>, all: Assoc.Dict<Attr>, i: nat)
    requires i < |mapping| && Assoc.HasKey(all, mapping[i].0)
    requires forall j :: i < j < |mapping| ==> mapping[j].1 != mapping[i].1
    ensures Assoc.GetLast(Aliased(mapping, all), mapping[i].1) == Assoc.Get(all, mapping[i].0)
  {
    var front := AliasedLast(mapping, all);
    if i < |mapping| - 1 {
      var init := mapping[..|mapping| - 1];
      assert init[i] == mapping[i];
      assert forall j :: i < j < |init| ==> init[j] == mapping[j];
      AliasedValue(init, all, i);
      Assoc.GetLastAppend(front, mapping[|mapping| - 1].1, Assoc.Get(all, mapping[|mapping| - 1].0), mapping[i].1);
    }
  }

  /** `Aliased` over all but the last mapping entry, and what the last entry adds. */
  lemma AliasedLast(mapping: Assoc.Dict<string>, all: Assoc.Dict<Attr>) returns (front: Assoc.Dict<Attr>)
    requires |mapping| > 0
    ensures front == Aliased(mapping[..|mapping| - 1], all)
    ensures var p := mapping[|mapping| - 1];
            Aliased(mapping, all) == match Assoc.Get(all, p.0) case None => front case Some(a) => front + [(p.1, a)]
  {
    front := Aliased(mapping[..|mapping| - 1], all);
  }

  /** What the property filter, the aliases and the groups make of key `k`. */
  lemma GatherSteps(s: ClassSchema, attrs: Assoc.Dict<Value>, k: string)
    requires Gather(s, attrs).Ok?
    ensures var all := Merge(s, attrs);
            var props := Assoc.Update(Visible(s, all), Aliased(s.mapping, all));
            && Assoc.Get(Spread(Assoc.Keys(s.grouping), all, props), k) ==
                 (match Assoc.Get(Gather(s, attrs).value, k) case Some(x) => Some(Data(x)) case None => None)
            && (NotSpread(s, all, k) ==> Assoc.Get(Spread(Assoc.Keys(s.grouping), all, props), k) == Assoc.Get(props, k))
  {
    var all := Merge(s, attrs);
    var props := Assoc.Update(Visible(s, all), Aliased(s.mapping, all));
    var groups := Assoc.Keys(s.grouping);
    PlainlyGet(Spread(groups, all, props), Gather(s, attrs).value, k);
    if NotSpread(s, all, k) {
      SpreadKeeps(groups, all, props, k);
    }
  }

  /**
   * A key that no alias and no group produces is shown exactly when the
   * merged entry passes the property filter: the instance value where the
   * instance has one, the class default otherwise.
   */
  lemma ShowsVisibleFields(s: ClassSchema, attrs: Assoc.Dict<Value>, k: string)
    requires Assoc.DistinctKeys(s.body)
    requires Gather(s, attrs).Ok?
    requires NotRenamedTo(s, Merge(s, attrs), k) && NotSpread(s, Merge(s, attrs), k)
    ensures Assoc.HasKey(Gather(s, attrs).value, k) <==>
              Assoc.Get(Merge(s, attrs), k).Some? && Shown(s, k, Assoc.Get(Merge(s, attrs), k).value)
    ensures Assoc.HasKey(Gather(s, attrs).value, k) ==>
              Assoc.Get(Merge(s, attrs), k) == Some(Data(Assoc.Get(Gather(s, attrs).value, k).value))
  {
    var all := Merge(s, attrs);
    MergeDistinct(s, attrs);
    VisibleGet(s, all, k);
    GatherSteps(s, attrs, k);
  }

  /** An instance attribute that the filter keeps, and no alias or group replaces, is shown with the instance's value. */
  lemma InstanceValueShown(s: ClassSchema, attrs: Assoc.Dict<Value>, k: string)
    requires Assoc.DistinctKeys(s.body)
    requires Gather(s, attrs).Ok?
    requires NotRenamedTo(s, Merge(s, attrs), k) && NotSpread(s, Merge(s, attrs), k)
    requires Assoc.HasKey(attrs, k) && Shown(s, k, Data(Assoc.GetLast(attrs, k).value))
    ensures Assoc.Get(Gather(s, attrs).value, k) == Assoc.GetLast(attrs, k)
  {
    ShowsVisibleFields(s, attrs, k);
  }

  /** A name the class ignores, a dunder name and a method are never shown, unless an alias or a group produces that key. */
  lemma HiddenNamesNotShown(s: ClassSchema, attrs: Assoc.Dict<Value>, k: string)
    requires Assoc.DistinctKeys(s.body)
    requires Gather(s, attrs).Ok?
    requires NotRenamedTo(s, Merge(s, attrs), k) && NotSpread(s, Merge(s, attrs), k)
    requires IsDunder(k) || k in s.ignored || (Assoc.Get(s.body, k) == Some(Function) && !Assoc.HasKey(attrs, k))
    ensures !Assoc.HasKey(Gather(s, attrs).value, k)
  {
    ShowsVisibleFields(s, attrs, k);
  }

  /**
   * A renamed attribute is shown under its alias with its value, for a
   * mapping whose aliases are distinct; its own name is not shown unless
   * another alias or a group produces it.
   */
  lemma AliasShown(s: ClassSchema, attrs: Assoc.Dict<Value>, i: nat)
    requires i < |s.mapping| && forall j :: 0 <= j < |s.mapping| && j != i ==> s.mapping[j].1 != s.mapping[i].1
    requires Gather(s, attrs).Ok? && Assoc.HasKey(Merge(s, attrs), s.mapping[i].0)
    requires NotSpread(s, Merge(s, attrs), s.mapping[i].1)
    ensures Assoc.HasKey(Gather(s, attrs).value, s.mapping[i].1)
    ensures Assoc.Get(Merge(s, attrs), s.mapping[i].0) == Some(Data(Assoc.Get(Gather(s, attrs).value, s.mapping[i].1).value))
    ensures NotRenamedTo(s, Merge(s, attrs), s.mapping[i].0) && NotSpread(s, Merge(s, attrs), s.mapping[i].0) ==>
              !Assoc.HasKey(Gather(s, attrs).value, s.mapping[i].0)
  {
    var (name, alias) := s.mapping[i];
    var all := Merge(s, attrs);
    var al := Aliased(s.mapping, all);
    AliasedValue(s.mapping, all, i);
    GatherSteps(s, attrs, alias);
    assert Assoc.HasKey(al, alias);
    if NotRenamedTo(s, all, name) && NotSpread(s, all, name) {
      GatherSteps(s, attrs, name);
      assert !Assoc.HasKey(al, name);
      assert Assoc.HasKey(s.mapping, name);
      VisibleLacks(s, all, name);
    }
  }

  /** A key of `__mapping__` or `__grouping__` never passes the property filter. */
  lemma VisibleLacks(s: ClassSchema, all: Assoc.Dict<Attr>, k: string)
    requires Assoc.HasKey(s.mapping, k) || Assoc.HasKey(s.grouping, k)
    ensures !Assoc.HasKey(Visible(s, all), k)
  {
    var v := Visible(s, all);
    forall i | 0 <= i < |v| ensures v[i].0 != k {
      assert Shown(s, v[i].0, v[i].1);
    }
  }

  /**
   * The entries of a group dictionary appear at the top level, over any
   * field or alias of the same name; where several groups hold a key, the
   * last group wins.
   */
  lemma GroupSpread(s: ClassSchema, attrs: Assoc.Dict<Value>, g: nat, es: Assoc.Dict<Value>, k: string)
    requires g < |s.grouping|
    requires Gather(s, attrs).Ok? && Assoc.Get(Merge(s, attrs), s.grouping[g].0) == Some(Data(VDict(es)))
    requires Assoc.HasKey(es, k)
    requires forall h :: g < h < |s.grouping| ==> !Spreads(Merge(s, attrs), s.grouping[h].0, k)
    ensures Assoc.Get(Gather(s, attrs).value, k) == Assoc.GetLast(es, k)
  {
    var all := Merge(s, attrs);
    var groups := Assoc.Keys(s.grouping);
    var props := Assoc.Update(Visible(s, all), Aliased(s.mapping, all));
    SpreadLast(groups, all, props, k, g, es);
    GatherSteps(s, attrs, k);
  }

  // ---------------------------------------------------------- the transform

  /** Depth 0 is exactly plain data: no instance nested anywhere. */
  lemma {:induction false} DepthZeroIsData(v: Value)
    ensures Depth(v) == 0 <==> IsData(v)
    decreases v, 1
  {
    match v
    case VList(items) =>
      ItemsDepthBound(v, |items|, 0);
      forall i | 0 <= i < |items| ensures Depth(items[i]) == 0 <==> IsData(items[i]) {
        DepthZeroIsData(items[i]);
      }
    case VDict(entries) =>
      DictDepth(entries, 0);
      forall i | 0 <= i < |entries| ensures Depth(entries[i].1) == 0 <==> IsData(entries[i].1) {
        DepthZeroIsData(entries[i].1);
      }
    case VObj(_, _) =>
    case VNone =>
    case VBool(_) =>
    case VInt(_) =>
    case VFloat(_) =>
    case VStr(_) =>
  }

  /** Plain data serialises to itself when nothing is pruned. */
  lemma {:induction false} DataUnchanged(t: Table, v: Value)
    requires IsData(v)
    ensures SerializeValue(t, v, false) == Ok(v)
    decreases Depth(v), v, 1, 0
  {
    match v
    case VList(items) =>
      ItemsUnchanged(t, v, |items|);
      assert items[..|items|] == items;
    case VDict(entries) =>
      EntriesUnchanged(t, v, |entries|);
      assert entries[..|entries|] == entries;
    case VNone =>
    case VBool(_) =>
    case VInt(_) =>
    case VFloat(_) =>
    case VStr(_) =>
  }

  lemma {:induction false} ItemsUnchanged(t: Table, v: Value, n: nat)
    requires v.VList? && n <= |v.items| && IsData(v)
    ensures SerializeItems(t, v, false, n) == Ok(v.items[..n])
    decreases Depth(v), v, 0, n
  {
    if n > 0 {
      ItemsUnchanged(t, v, n - 1);
      ItemsDepthBound(v, |v.items|, 0);
      DataUnchanged(t, v.items[n - 1]);
      assert v.items[..n] == v.items[..n - 1] + [v.items[n - 1]];
    }
  }

  lemma {:induction false} EntriesUnchanged(t: Table, v: Value, n: nat)
    requires v.VDict? && n <= |v.entries| && IsData(v)
    ensures SerializeEntries(t, v, false, n) == Ok(v.entries[..n])
    decreases Depth(v), v, 0, n
  {
    if n > 0 {
      EntriesUnchanged(t, v, n - 1);
      DictDepth(v.entries, 0);
      DataUnchanged(t, v.entries[n - 1].1);
      assert v.entries[..n] == v.entries[..n - 1] + [v.entries[n - 1]];
    }
  }

  /** Some of the first `n` entries is named `k` and survives the `minimal` filter. */
  predicate Kept(es: Assoc.Dict<Value>, minimal: bool, n: nat, k: string)
    requires n <= |es|
  {
    n > 0 && ((es[n - 1].0 == k && (!minimal || Truthy(es[n - 1].1))) || Kept(es, minimal, n - 1, k))
  }

  lemma {:induction false} KeptAt(es: Assoc.Dict<Value>, minimal: bool, n: nat, k: string)
    requires n <= |es|
    ensures Kept(es, minimal, n, k) <==> exists i :: 0 <= i < n && es[i].0 == k && (!minimal || Truthy(es[i].1))
  {
    if n > 0 {
      KeptAt(es, minimal, n - 1, k);
    }
  }

  /** Each serialised entry comes from an entry of the same key that survives the filter, serialised. */
  lemma {:induction false} EntryOrigin(t: Table, v: Value, minimal: bool, n: nat, j: nat) returns (i: nat)
    requires v.VDict? && n <= |v.entries|
    requires SerializeEntries(t, v, minimal, n).Ok? && j < |SerializeEntries(t, v, minimal, n).value|
    ensures i < n && SerializeEntries(t, v, minimal, n).value[j].0 == v.entries[i].0
    ensures !minimal || Truthy(v.entries[i].1)
    ensures SerializeValue(t, v.entries[i].1, minimal) == Ok(SerializeEntries(t, v, minimal, n).value[j].1)
    decreases n
  {
    var r := SerializeEntries(t, v, minimal, n).value;
    if n == 0 {
      assert false;
    }
    var front := SerializeEntries(t, v, minimal, n - 1).value;
    var e := v.entries[n - 1];
    if minimal && !Truthy(e.1) {
      assert r == front;
      i := EntryOrigin(t, v, minimal, n - 1, j);
    } else {
      DictDepth(v.entries, 0);
      var x := SerializeValue(t, e.1, minimal).value;
      assert r == front + [(e.0, x)];
      if j < |front| {
        i := EntryOrigin(t, v, minimal, n - 1, j);
        assert r[j] == front[j];
      } else {
        i := n - 1;
      }
    }
  }

  /** With `minimal` exactly the keys of truthy entries are kept, otherwise all of them. */
  lemma {:induction false} KeptKeys(t: Table, v: Value, minimal: bool, n: nat, k: string)
    requires v.VDict? && n <= |v.entries|
    requires SerializeEntries(t, v, minimal, n).Ok?
    ensures Assoc.HasKey(SerializeEntries(t, v, minimal, n).value, k) <==> Kept(v.entries, minimal, n, k)
    decreases n
  {
    if n > 0 {
      KeptKeys(t, v, minimal, n - 1, k);
      var r := SerializeEntries(t, v, minimal, n).value;
      var front := SerializeEntries(t, v, minimal, n - 1).value;
      var e := v.entries[n - 1];
      if minimal && !Truthy(e.1) {
        assert r == front;
      } else {
        DictDepth(v.entries, 0);
        var x := SerializeValue(t, e.1, minimal).value;
        assert r == front + [(e.0, x)];
        Assoc.HasKeyAppend(front, (e.0, x), k);
      }
    } else {
      assert SerializeEntries(t, v, minimal, n) == Ok([]);
    }
  }

  /** `serialize(minimal=True)` keeps exactly the truthy values of a dictionary; `minimal=False` keeps every key. */
  lemma MinimalKeepsTruthy(t: Table, es: Assoc.Dict<Value>, minimal: bool, k: string)
    requires SerializeValue(t, VDict(es), minimal).Ok?
    ensures SerializeValue(t, VDict(es), minimal).value.VDict?
    ensures Assoc.HasKey(SerializeValue(t, VDict(es), minimal).value.entries, k) <==>
              exists i :: 0 <= i < |es| && es[i].0 == k && (!minimal || Truthy(es[i].1))
  {
    var v := VDict(es);
    KeptKeys(t, v, minimal, |es|, k);
    KeptAt(es, minimal, |es|, k);
    var r := SerializeEntries(t, v, minimal, |es|).value;
    assert SerializeValue(t, v, minimal) == Ok(VDict(r));
  }
}
