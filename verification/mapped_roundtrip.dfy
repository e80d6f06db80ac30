/**
 * The round trip of `RoundTrip` for classes that rename fields through
 * `__mapping__` and collect undeclared keys through `__grouping__`:
 * building an instance from data that matches such a class and serialising
 * it again gives the data back, key by key.
 */
module MappedRoundTrip {
  import opened Outcomes
  import opened Text
  import opened PyValue
  import opened Schema
  import opened Deserialization
  import opened Serialization
  import opened SerializationFacts
  import opened RoundTrip
  import Assoc

  /**
   * A data key the class reads back and serialises again: a field that is
   * not renamed, the alias of a renamed field, or an undeclared key whose
   * suffix some group collects.
   */
  predicate Declared(s: ClassSchema, k: string) {
    || (Assoc.HasKey(s.annotations, k) && !Assoc.HasKey(s.mapping, k))
    || IsAlias(s, k)
    || (!Annotated(s, k) && exists g :: 0 <= g < |s.grouping| && EndsWith(k, s.grouping[g].1))
  }

  /**
   * A class with plain annotated fields, renames whose fields are annotated
   * and whose aliases are distinct and not annotated, groups whose names
   * are neither annotated nor class attributes, no ignored names, and data
   * whose every key the class declares.
   */
  predicate Matches(s: ClassSchema, d: Assoc.Dict<Value>) {
    && s.ignored == []
    && (s.strict ==> forall i :: 0 <= i < |s.body| && IsProperty(s, s.body[i].0, s.body[i].1) ==> Assoc.HasKey(s.annotations, s.body[i].0))
    && Assoc.DistinctKeys(s.annotations) && Assoc.DistinctKeys(s.body)
    && Assoc.DistinctKeys(s.mapping) && Assoc.DistinctKeys(s.grouping)
    && (forall i, j :: 0 <= i < j < |s.mapping| ==> s.mapping[i].1 != s.mapping[j].1)
    && (forall i :: 0 <= i < |s.mapping| ==> Assoc.HasKey(s.annotations, s.mapping[i].0) && !Annotated(s, s.mapping[i].1))
    && (forall g :: 0 <= g < |s.grouping| ==> !Annotated(s, s.grouping[g].0) && !Assoc.HasKey(s.body, s.grouping[g].0))
    && (forall i :: 0 <= i < |s.annotations| ==> Readable(s, s.annotations[i], d))
    && (forall i :: 0 <= i < |d| ==> Declared(s, d[i].0) && IsData(d[i].1))
    && (forall i :: 0 <= i < |s.body| ==> QuietDefault(s, s.body[i]))
  }

  /** What the group at position `g` stores: the dictionary of the keys it collects, if it collects any. */
  function Collected(s: ClassSchema, d: Assoc.Dict<Value>, g: nat): Option<Value>
    requires g < |s.grouping|
  {
    var c := ClaimAt(s.grouping, d, Unmapped(s, d), g);
    if |c| > 0 then Some(VDict(c)) else None
  }

  /** The instance attributes `FromDict` sets for data matching the class. */
  ghost predicate BuiltFrom(s: ClassSchema, d: Assoc.Dict<Value>, attrs: Assoc.Dict<Value>) {
    && Assoc.DistinctKeys(attrs) && AllData(attrs)
    && (forall i :: 0 <= i < |s.annotations| ==> Assoc.Get(attrs, s.annotations[i].0) == Assoc.Get(d, WireName(s, s.annotations[i].0)))
    && (forall g :: 0 <= g < |s.grouping| ==> Assoc.Get(attrs, s.grouping[g].0) == Collected(s, d, g))
    && (forall k :: Assoc.HasKey(attrs, k) ==> Assoc.HasKey(s.annotations, k) || Assoc.HasKey(s.grouping, k))
  }

  // ------------------------------------------------------------ reading

  /** The values `Claim` collects from plain data are plain. */
  lemma ClaimedData(c: Assoc.Dict<Value>, d: Assoc.Dict<Value>)
    requires AllData(d)
    requires forall i :: 0 <= i < |c| ==> Assoc.Get(d, c[i].0).GetOr(VNone) == c[i].1
    ensures IsData(VDict(c))
  {
    forall i | 0 <= i < |c| ensures IsData(c[i].1) {
      if Assoc.HasKey(d, c[i].0) {
        var j :| 0 <= j < |d| && d[j] == (c[i].0, Assoc.Get(d, c[i].0).value);
      }
    }
  }

  /** The grouping loop keeps the attributes distinct and plain, and adds only group names. */
  lemma {:induction false} GroupedData(groups: Assoc.Dict<string>, d: Assoc.Dict<Value>, attrs: Assoc.Dict<Value>, unmapped: seq<string>)
    requires Assoc.DistinctKeys(attrs) && AllData(attrs) && AllData(d)
    ensures Assoc.DistinctKeys(Group(groups, d, attrs, unmapped).0) && AllData(Group(groups, d, attrs, unmapped).0)
    ensures forall k :: Assoc.HasKey(Group(groups, d, attrs, unmapped).0, k) ==> Assoc.HasKey(attrs, k) || Assoc.HasKey(groups, k)
    decreases |groups|
  {
    if |groups| > 0 {
      var c := Claim(groups[0].1, d, unmapped);
      var r := Group(groups, d, attrs, unmapped).0;
      forall k | Assoc.HasKey(groups[1..], k) ensures Assoc.HasKey(groups, k) {
        var j :| 0 <= j < |groups[1..]| && groups[1..][j].0 == k;
        assert groups[j + 1].0 == k;
      }
      if |c.0| > 0 {
        var attrs' := Assoc.Put(attrs, groups[0].0, VDict(c.0));
        ClaimedData(c.0, d);
        Assoc.PutDistinct(attrs, groups[0].0, VDict(c.0));
        PutData(attrs, groups[0].0, VDict(c.0));
        Assoc.PutHasKey(attrs, groups[0].0, VDict(c.0));
        GroupedData(groups[1..], d, attrs', c.1);
        assert r == Group(groups[1..], d, attrs', c.1).0;
        assert Assoc.HasKey(groups, groups[0].0);
      } else {
        GroupedData(groups[1..], d, attrs, unmapped);
        assert r == Group(groups[1..], d, attrs, unmapped).0;
      }
    }
  }

  /** No undeclared key of matching data is left over by the groups. */
  lemma NoneLeft(s: ClassSchema, d: Assoc.Dict<Value>)
    requires Matches(s, d)
    ensures forall attrs :: Group(s.grouping, d, attrs, Unmapped(s, d)).1 == []
  {
    forall k | k in Unmapped(s, d) ensures exists g :: 0 <= g < |s.grouping| && EndsWith(k, s.grouping[g].1) {
      var i :| 0 <= i < |d| && d[i].0 == k;
      assert Declared(s, d[i].0);
    }
    forall attrs ensures Group(s.grouping, d, attrs, Unmapped(s, d)).1 == [] {
      FirstIn(Group(s.grouping, d, attrs, Unmapped(s, d)).1);
    }
  }

  lemma FirstIn(xs: seq<string>)
    ensures |xs| > 0 ==> xs[0] in xs
  {
  }

  /** The fields read from matching data: each under its name with the data's value under its wire name. */
  lemma MatchedFields(t: Table, n: string, d: Value) returns (f: Assoc.Dict<Value>)
    requires n in t && d.VDict? && Matches(t[n], d.entries)
    ensures Fields(t, n, d, |t[n].annotations|) == Ok((f, []))
    ensures StoredPrefix(t[n], |t[n].annotations|, d.entries, f)
  {
    EachReadable(t[n], |t[n].annotations|, d.entries);
    var r := ReadFields(t, n, d, |t[n].annotations|);
    f := r.0;
  }

  /**
   * What `FromDict` builds from data matching the class: every field holds
   * the data's value under its wire name, every group the keys it collects,
   * and nothing else is set; no problem is recorded.
   */
  lemma MatchedBuild(t: Table, n: string, d: Value) returns (attrs: Assoc.Dict<Value>)
    requires n in t && d.VDict? && Matches(t[n], d.entries)
    ensures FromDict(t, n, d) == Ok(Built(VObj(n, attrs), []))
    ensures BuiltFrom(t[n], d.entries, attrs)
  {
    var s := t[n];
    var f := MatchedFields(t, n, d);
    var unmapped := Unmapped(s, d.entries);
    var grouped := Group(s.grouping, d.entries, f, unmapped);
    attrs := grouped.0;
    assert AllData(d.entries) by {
      forall i | 0 <= i < |d.entries| ensures IsData(d.entries[i].1) {
        assert Declared(s, d.entries[i].0) && IsData(d.entries[i].1);
      }
    }
    GroupedData(s.grouping, d.entries, f, unmapped);
    forall i | 0 <= i < |s.annotations|
      ensures Assoc.Get(attrs, s.annotations[i].0) == Assoc.Get(d.entries, WireName(s, s.annotations[i].0))
    {
      GroupKeeps(s.grouping, d.entries, f, unmapped, s.annotations[i].0);
    }
    forall k | Assoc.HasKey(f, k) ensures Assoc.HasKey(s.annotations, k) {
      var a := AmongFirstAt(s.annotations, |s.annotations|, k);
      assert s.annotations[a].0 == k;
    }
    forall g | 0 <= g < |s.grouping| ensures Assoc.Get(attrs, s.grouping[g].0) == Collected(s, d.entries, g) {
      GroupSets(s.grouping, d.entries, f, unmapped, g);
    }
    if s.strict {
      NoneLeft(s, d.entries);
      assert grouped.1 == [];
      var props := Properties(s);
      forall i | 0 <= i < |props| ensures Annotated(s, props[i].0) {
        assert Assoc.HasKey(props, props[i].0);
      }
      NoneUnannotated(n, s, props);
    }
  }

  // ---------------------------------------------------------- serialising

  /** Every entry of `d` is a plain value, not a callable. */
  predicate AllPlain(d: Assoc.Dict<Attr>) {
    forall i :: 0 <= i < |d| ==> d[i].1.Data?
  }

  lemma PlainValues(d: Assoc.Dict<Attr>)
    ensures AllPlain(d) <==> forall x :: x in Assoc.ValueSet(d) ==> x.Data?
  {
    if forall x :: x in Assoc.ValueSet(d) ==> x.Data? {
      forall i | 0 <= i < |d| ensures d[i].1.Data? {
        assert d[i].1 in Assoc.ValueSet(d);
      }
    }
  }

  lemma UpdatePlain(d: Assoc.Dict<Attr>, e: Assoc.Dict<Attr>)
    requires AllPlain(d) && AllPlain(e)
    ensures AllPlain(Assoc.Update(d, e))
  {
    Assoc.UpdateValues(d, e);
    PlainValues(d);
    PlainValues(e);
    PlainValues(Assoc.Update(d, e));
  }

  /** The aliases emitted for attributes that are all plain values are plain values. */
  lemma {:induction false} AliasedPlain(mapping: Assoc.Dict<string>, all: Assoc.Dict<Attr>)
    requires forall i :: 0 <= i < |mapping| ==> Assoc.Get(all, mapping[i].0).None? || Assoc.Get(all, mapping[i].0).value.Data?
    ensures AllPlain(Aliased(mapping, all))
  {
    if |mapping| > 0 {
      var front := AliasedLast(mapping, all);
      assert forall i :: 0 <= i < |mapping| - 1 ==> mapping[..|mapping| - 1][i] == mapping[i];
      AliasedPlain(mapping[..|mapping| - 1], all);
      assert Assoc.Get(all, mapping[|mapping| - 1].0).None? || Assoc.Get(all, mapping[|mapping| - 1].0).value.Data?;
    }
  }

  /** Spreading groups over plain values leaves plain values. */
  lemma {:induction false} SpreadPlain(groups: seq<string>, all: Assoc.Dict<Attr>, props: Assoc.Dict<Attr>)
    requires AllPlain(props)
    ensures AllPlain(Spread(groups, all, props))
    decreases |groups|
  {
    if |groups| > 0 {
      var next := match GroupOf(all, groups[0])
                  case Some(es) => Assoc.Update(props, Wrap(es))
                  case None => props;
      if GroupOf(all, groups[0]).Some? {
        UpdatePlain(props, Wrap(GroupOf(all, groups[0]).value));
      }
      SpreadPlain(groups[1..], all, next);
    }
  }

  /** A field of matching data is set on the instance. */
  lemma FieldSet(s: ClassSchema, d: Assoc.Dict<Value>, attrs: Assoc.Dict<Value>, name: string) returns (a: nat)
    requires Matches(s, d) && BuiltFrom(s, d, attrs) && Assoc.HasKey(s.annotations, name)
    ensures a < |s.annotations| && s.annotations[a].0 == name
    ensures Assoc.Get(attrs, name) == Assoc.Get(d, WireName(s, name)) && Assoc.HasKey(attrs, name)
    ensures Assoc.Get(Merge(s, attrs), name) == Some(Data(Assoc.Get(d, WireName(s, name)).value))
  {
    a :| 0 <= a < |s.annotations| && s.annotations[a].0 == name;
    assert Readable(s, s.annotations[a], d);
    Assoc.GetLastDistinct(attrs, name);
  }

  /** Serialising an instance built from matching data succeeds. */
  lemma MatchedGather(s: ClassSchema, d: Assoc.Dict<Value>, attrs: Assoc.Dict<Value>)
    requires Matches(s, d) && BuiltFrom(s, d, attrs)
    ensures Gather(s, attrs).Ok?
  {
    var all := Merge(s, attrs);
    QuietVisible(s, attrs);
    var vis := Visible(s, all);
    forall i | 0 <= i < |s.mapping| ensures Assoc.Get(all, s.mapping[i].0).None? || Assoc.Get(all, s.mapping[i].0).value.Data? {
      var a := FieldSet(s, d, attrs, s.mapping[i].0);
    }
    AliasedPlain(s.mapping, all);
    UpdatePlain(vis, Aliased(s.mapping, all));
    SpreadPlain(Assoc.Keys(s.grouping), all, Assoc.Update(vis, Aliased(s.mapping, all)));
  }

  /** The dictionary under a group's name holds the keys the group collected, and only those. */
  lemma GroupHolds(s: ClassSchema, d: Assoc.Dict<Value>, attrs: Assoc.Dict<Value>, g: nat, k: string)
    requires Matches(s, d) && BuiltFrom(s, d, attrs) && g < |s.grouping|
    ensures Spreads(Merge(s, attrs), s.grouping[g].0, k) <==> Assoc.HasKey(ClaimAt(s.grouping, d, Unmapped(s, d), g), k)
    ensures Spreads(Merge(s, attrs), s.grouping[g].0, k) ==>
              Assoc.Get(Merge(s, attrs), s.grouping[g].0) == Some(Data(VDict(ClaimAt(s.grouping, d, Unmapped(s, d), g))))
  {
    var name := s.grouping[g].0;
    Assoc.GetLastDistinct(attrs, name);
    if !Assoc.HasKey(attrs, name) {
      assert Assoc.Get(s.body, name).None?;
    }
  }

  /** Only undeclared data keys are ever spread from a group. */
  lemma SpreadOnlyUndeclared(s: ClassSchema, d: Assoc.Dict<Value>, attrs: Assoc.Dict<Value>, k: string)
    requires Matches(s, d) && BuiltFrom(s, d, attrs)
    requires !Assoc.HasKey(d, k) || Annotated(s, k) || IsAlias(s, k)
    ensures NotSpread(s, Merge(s, attrs), k)
  {
    forall g | 0 <= g < |s.grouping| ensures !Spreads(Merge(s, attrs), s.grouping[g].0, k) {
      GroupHolds(s, d, attrs, g, k);
      ClaimAtKeys(s.grouping, d, Unmapped(s, d), g, k);
    }
  }

  /** The wire name of the field renamed by mapping entry `i` is its alias. */
  lemma WireNameIsAlias(s: ClassSchema, i: nat)
    requires Assoc.DistinctKeys(s.mapping) && i < |s.mapping|
    ensures WireName(s, s.mapping[i].0) == s.mapping[i].1
  {
    Assoc.GetAt(s.mapping, s.mapping[i].0, i);
  }

  /** A field that is not renamed is serialised under its name with the data's value. */
  lemma FieldBack(s: ClassSchema, d: Assoc.Dict<Value>, attrs: Assoc.Dict<Value>, k: string)
    requires Matches(s, d) && BuiltFrom(s, d, attrs) && Gather(s, attrs).Ok?
    requires Assoc.HasKey(s.annotations, k) && !Assoc.HasKey(s.mapping, k)
    ensures Assoc.Get(Gather(s, attrs).value, k) == Assoc.Get(d, k)
  {
    var a := FieldSet(s, d, attrs, k);
    assert WireName(s, k) == k;
    SpreadOnlyUndeclared(s, d, attrs, k);
    Assoc.GetLastDistinct(attrs, k);
    InstanceValueShown(s, attrs, k);
  }

  /** A renamed field is serialised under its alias with the data's value. */
  lemma AliasBack(s: ClassSchema, d: Assoc.Dict<Value>, attrs: Assoc.Dict<Value>, i: nat)
    requires Matches(s, d) && BuiltFrom(s, d, attrs) && Gather(s, attrs).Ok? && i < |s.mapping|
    ensures Assoc.Get(Gather(s, attrs).value, s.mapping[i].1) == Assoc.Get(d, s.mapping[i].1)
  {
    var (name, alias) := s.mapping[i];
    var a := FieldSet(s, d, attrs, name);
    WireNameIsAlias(s, i);
    SpreadOnlyUndeclared(s, d, attrs, alias);
    AliasShown(s, attrs, i);
  }

  /** The first group whose suffix `k` ends with. */
  lemma FirstCollector(s: ClassSchema, k: string, g: nat) returns (g0: nat)
    requires g < |s.grouping| && EndsWith(k, s.grouping[g].1)
    ensures g0 <= g && EndsWith(k, s.grouping[g0].1)
    ensures forall h :: 0 <= h < g0 ==> !EndsWith(k, s.grouping[h].1)
  {
    g0 := 0;
    while !EndsWith(k, s.grouping[g0].1)
      invariant g0 <= g
      invariant forall h :: 0 <= h < g0 ==> !EndsWith(k, s.grouping[h].1)
      decreases g - g0
    {
      g0 := g0 + 1;
    }
  }

  /** The group that collects an undeclared data key: the first with its suffix; no later group holds the key. */
  lemma CollectedBy(s: ClassSchema, d: Assoc.Dict<Value>, attrs: Assoc.Dict<Value>, k: string) returns (g0: nat)
    requires Matches(s, d) && BuiltFrom(s, d, attrs)
    requires Assoc.HasKey(d, k) && !Annotated(s, k) && !IsAlias(s, k)
    ensures g0 < |s.grouping| && Assoc.HasKey(ClaimAt(s.grouping, d, Unmapped(s, d), g0), k)
    ensures Assoc.Get(Merge(s, attrs), s.grouping[g0].0) == Some(Data(VDict(ClaimAt(s.grouping, d, Unmapped(s, d), g0))))
    ensures forall h :: g0 < h < |s.grouping| ==> !Spreads(Merge(s, attrs), s.grouping[h].0, k)
  {
    var i :| 0 <= i < |d| && d[i].0 == k;
    assert Declared(s, d[i].0);
    var g :| 0 <= g < |s.grouping| && EndsWith(k, s.grouping[g].1);
    g0 := FirstCollector(s, k, g);
    ClaimAtKeys(s.grouping, d, Unmapped(s, d), g0, k);
    GroupHolds(s, d, attrs, g0, k);
    forall h | g0 < h < |s.grouping| ensures !Spreads(Merge(s, attrs), s.grouping[h].0, k) {
      GroupHolds(s, d, attrs, h, k);
      ClaimAtKeys(s.grouping, d, Unmapped(s, d), h, k);
    }
  }

  /** A collected key holds the data's value in its group's dictionary. */
  lemma ClaimedValue(s: ClassSchema, d: Assoc.Dict<Value>, g: nat, k: string)
    requires g < |s.grouping| && Assoc.HasKey(ClaimAt(s.grouping, d, Unmapped(s, d), g), k)
    ensures Assoc.HasKey(d, k)
    ensures Assoc.GetLast(ClaimAt(s.grouping, d, Unmapped(s, d), g), k) == Assoc.Get(d, k)
  {
    var c := ClaimAt(s.grouping, d, Unmapped(s, d), g);
    ClaimAtKeys(s.grouping, d, Unmapped(s, d), g, k);
    Assoc.GetLastIn(c, k);
  }

  /** An undeclared data key is collected by the first group with its suffix and serialised back with the data's value. */
  lemma CollectedBack(s: ClassSchema, d: Assoc.Dict<Value>, attrs: Assoc.Dict<Value>, k: string)
    requires Matches(s, d) && BuiltFrom(s, d, attrs) && Gather(s, attrs).Ok?
    requires Assoc.HasKey(d, k) && !Annotated(s, k) && !IsAlias(s, k)
    ensures Assoc.Get(Gather(s, attrs).value, k) == Assoc.Get(d, k)
  {
    var g0 := CollectedBy(s, d, attrs, k);
    ClaimedValue(s, d, g0, k);
    GroupSpread(s, attrs, g0, ClaimAt(s.grouping, d, Unmapped(s, d), g0), k);
  }

  /** Every field's wire name is a data key; a renamed field's wire name is its alias. */
  lemma FieldsPresent(s: ClassSchema, d: Assoc.Dict<Value>)
    requires Matches(s, d)
    ensures forall k :: Assoc.HasKey(s.annotations, k) ==> Assoc.HasKey(d, WireName(s, k))
    ensures forall i :: 0 <= i < |s.mapping| ==> WireName(s, s.mapping[i].0) == s.mapping[i].1 && Assoc.HasKey(d, s.mapping[i].1)
  {
    forall k | Assoc.HasKey(s.annotations, k) ensures Assoc.HasKey(d, WireName(s, k)) {
      var a :| 0 <= a < |s.annotations| && s.annotations[a].0 == k;
      assert Readable(s, s.annotations[a], d);
    }
    forall i | 0 <= i < |s.mapping| ensures WireName(s, s.mapping[i].0) == s.mapping[i].1 {
      WireNameIsAlias(s, i);
    }
  }

  /** A key the data lacks is not serialised. */
  lemma AbsentBack(s: ClassSchema, d: Assoc.Dict<Value>, attrs: Assoc.Dict<Value>, k: string)
    requires Matches(s, d) && BuiltFrom(s, d, attrs) && Gather(s, attrs).Ok?
    requires !Assoc.HasKey(d, k)
    ensures Assoc.Get(Gather(s, attrs).value, k) == None
  {
    if Assoc.HasKey(s.mapping, k) {
      var i :| 0 <= i < |s.mapping| && s.mapping[i].0 == k;
      AbsentRenamed(s, d, attrs, i);
    } else {
      AbsentUnrenamed(s, d, attrs, k);
    }
  }

  /** `AbsentBack` for the name of a renamed field: it is serialised under its alias only. */
  lemma AbsentRenamed(s: ClassSchema, d: Assoc.Dict<Value>, attrs: Assoc.Dict<Value>, i: nat)
    requires Matches(s, d) && BuiltFrom(s, d, attrs) && Gather(s, attrs).Ok?
    requires i < |s.mapping| && !Assoc.HasKey(d, s.mapping[i].0)
    ensures Assoc.Get(Gather(s, attrs).value, s.mapping[i].0) == None
  {
    var k := s.mapping[i].0;
    FieldsPresent(s, d);
    SpreadOnlyUndeclared(s, d, attrs, k);
    var a := FieldSet(s, d, attrs, k);
    SpreadOnlyUndeclared(s, d, attrs, s.mapping[i].1);
    AliasShown(s, attrs, i);
  }

  /** `AbsentBack` for a name that is not renamed. */
  lemma AbsentUnrenamed(s: ClassSchema, d: Assoc.Dict<Value>, attrs: Assoc.Dict<Value>, k: string)
    requires Matches(s, d) && BuiltFrom(s, d, attrs) && Gather(s, attrs).Ok?
    requires !Assoc.HasKey(d, k) && !Assoc.HasKey(s.mapping, k)
    ensures Assoc.Get(Gather(s, attrs).value, k) == None
  {
    FieldsPresent(s, d);
    SpreadOnlyUndeclared(s, d, attrs, k);
    ShowsVisibleFields(s, attrs, k);
    if !Assoc.HasKey(attrs, k) && Assoc.Get(s.body, k).Some? {
      var b :| 0 <= b < |s.body| && s.body[b] == (k, Assoc.Get(s.body, k).value);
      assert QuietDefault(s, s.body[b]);
    }
  }

  /** The dictionary gathered from an instance built from matching data holds what the data holds. */
  lemma MatchedKeys(s: ClassSchema, d: Assoc.Dict<Value>, attrs: Assoc.Dict<Value>)
    requires Matches(s, d) && BuiltFrom(s, d, attrs)
    ensures Gather(s, attrs).Ok?
    ensures forall k :: Assoc.Get(Gather(s, attrs).value, k) == Assoc.Get(d, k)
  {
    MatchedGather(s, d, attrs);
    forall k ensures Assoc.Get(Gather(s, attrs).value, k) == Assoc.Get(d, k) {
      if !Assoc.HasKey(d, k) {
        AbsentBack(s, d, attrs, k);
      } else if IsAlias(s, k) {
        var i :| 0 <= i < |s.mapping| && s.mapping[i].1 == k;
        AliasBack(s, d, attrs, i);
      } else if Assoc.HasKey(s.annotations, k) && !Assoc.HasKey(s.mapping, k) {
        FieldBack(s, d, attrs, k);
      } else {
        var i :| 0 <= i < |d| && d[i].0 == k;
        assert Declared(s, d[i].0);
        CollectedBack(s, d, attrs, k);
      }
    }
  }

  /**
   * `C(d).serialize()` equals `d` as a dictionary for a class `C` with
   * renamed fields and groups and data `d` that matches it: every field
   * comes back under its alias, every collected key at the top level.
   */
  lemma MatchedRoundTrip(t: Table, n: string, d: Value)
    requires n in t && d.VDict? && Matches(t[n], d.entries)
    ensures New(t, n, d, []).Ok?
    ensures var obj := New(t, n, d, []).value.obj;
      && obj.VObj? && obj.cls == n
      && Serialize(t, obj, false).Ok?
      && Serialize(t, obj, false).value.VDict?
      && forall k :: Assoc.Get(Serialize(t, obj, false).value.entries, k) == Assoc.Get(d.entries, k)
  {
    var attrs := MatchedBuild(t, n, d);
    var obj := VObj(n, attrs);
    assert New(t, n, d, []) == FromDict(t, n, d);
    MatchedKeys(t[n], d.entries, attrs);
    var props := Gather(t[n], attrs).value;
    EntriesDepthBound(obj, |attrs|, 0);
    forall i | 0 <= i < |attrs| ensures Depth(attrs[i].1) == 0 {
      DepthZeroIsData(attrs[i].1);
    }
    GatherDepth(t[n], n, attrs);
    DepthZeroIsData(VDict(props));
    DataUnchanged(t, VDict(props));
  }

  /** The strict class of the documented examples: the field `a_b: str` renamed to `"a:b"`, and the group `uris` of the keys ending in `_url`. */
  const MyObject := ClassSchema([("a_b", Plain(StrT))], [], [("a_b", "a:b")], [("uris", "_url")], [], true)

  /** Data for `MyObject`. */
  const MyData: Assoc.Dict<Value> := [("a:b", VStr("v")), ("a_url", VStr("x")), ("b_url", VStr("y"))]

  lemma MyFieldReadable()
    ensures forall i :: 0 <= i < |MyObject.annotations| ==> Readable(MyObject, MyObject.annotations[i], MyData)
  {
    assert "a_b"[..1] != "_" by { assert "a_b"[..1][0] == 'a'; }
    assert "a_b"[..2] != "__" by { assert "a_b"[..2][0] == 'a'; }
    assert WireName(MyObject, "a_b") == "a:b";
    assert Assoc.Get(MyData, "a:b") == Some(VStr("v"));
  }

  lemma MyNamesFree()
    ensures !Annotated(MyObject, "a:b") && !Annotated(MyObject, "uris")
    ensures !Annotated(MyObject, "a_url") && !Annotated(MyObject, "b_url")
  {
    assert "a:b" != "a_b" && "uris" != "a_b" && "a_url" != "a_b" && "b_url" != "a_b";
  }

  lemma MyKeysDeclared()
    ensures forall i :: 0 <= i < |MyData| ==> Declared(MyObject, MyData[i].0) && IsData(MyData[i].1)
  {
    MyNamesFree();
    assert IsAlias(MyObject, "a:b") by { assert MyObject.mapping[0].1 == "a:b"; }
    assert EndsWith("a_url", MyObject.grouping[0].1) by { assert "a_url"[1..] == "_url"; }
    assert EndsWith("b_url", MyObject.grouping[0].1) by { assert "b_url"[1..] == "_url"; }
  }

  lemma MyShape()
    ensures Assoc.DistinctKeys(MyObject.annotations) && Assoc.DistinctKeys(MyObject.body)
    ensures Assoc.DistinctKeys(MyObject.mapping) && Assoc.DistinctKeys(MyObject.grouping)
    ensures forall i :: 0 <= i < |MyObject.mapping| ==> Assoc.HasKey(MyObject.annotations, MyObject.mapping[i].0) && !Annotated(MyObject, MyObject.mapping[i].1)
    ensures forall g :: 0 <= g < |MyObject.grouping| ==> !Annotated(MyObject, MyObject.grouping[g].0) && !Assoc.HasKey(MyObject.body, MyObject.grouping[g].0)
  {
    MyNamesFree();
    assert Assoc.HasKey(MyObject.annotations, "a_b") by { assert MyObject.annotations[0].0 == "a_b"; }
  }

  lemma MyDataMatches()
    ensures Matches(MyObject, MyData)
  {
    MyShape();
    MyFieldReadable();
    MyKeysDeclared();
  }

  /**
   * `MyObject({"a:b": "v", "a_url": "x", "b_url": "y"}).serialize()` equals
   * the data as a dictionary.
   */
  lemma DocumentedRoundTrip()
    ensures var t := map["MyObject" := MyObject];
            && New(t, "MyObject", VDict(MyData), []).Ok?
            && var obj := New(t, "MyObject", VDict(MyData), []).value.obj;
            && obj.VObj? && obj.cls == "MyObject"
            && Serialize(t, obj, false).Ok? && Serialize(t, obj, false).value.VDict?
            && forall k :: Assoc.Get(Serialize(t, obj, false).value.entries, k) == Assoc.Get(MyData, k)
  {
    MyDataMatches();
    MatchedRoundTrip(map["MyObject" := MyObject], "MyObject", VDict(MyData));
  }
}
