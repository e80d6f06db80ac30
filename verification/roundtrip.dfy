/**
 * Building an instance from a dictionary and serialising it again gives the
 * dictionary back (as a dictionary: the same value under every key), for a
 * class whose fields are plain annotated values the data matches.
 */
module RoundTrip {
  import opened Outcomes
  import opened Text
  import opened PyValue
  import opened Schema
  import opened Deserialization
  import opened Serialization
  import opened SerializationFacts
  import Assoc

  /** An annotation the data's value passes through unchanged. */
  predicate Accepts(k: Kind, v: Value) {
    || (k.Plain? && k.cls != DictT && IsInstance(v, k.cls))
    || (k.UnionOf? && OriginInstance(v, k))
  }

  /** A field name neither reading nor serialising hides. */
  predicate PlainName(name: string) {
    !IsDunder(name) && !(StartsWith(name, "_") && Contains(name, "__"))
  }

  /** The data key a field is read from when the data holds it: its alias if it has one, else its name. */
  function WireName(s: ClassSchema, name: string): string {
    match Assoc.Get(s.mapping, name)
    case Some(alias) => alias
    case None => name
  }

  /** An annotation whose name is plain and whose value in the data, under its wire name, passes through unchanged. */
  predicate Readable(s: ClassSchema, a: (string, Kind), d: Assoc.Dict<Value>) {
    && PlainName(a.0)
    && Assoc.Get(d, WireName(s, a.0)).Some?
    && IsData(Assoc.Get(d, WireName(s, a.0)).value)
    && Accepts(a.1, Assoc.Get(d, WireName(s, a.0)).value)
  }

  /** A class default that is plain data and, unless annotated, hidden from serialisation. */
  predicate QuietDefault(s: ClassSchema, e: (string, Attr)) {
    && e.1 != StaticMethod
    && (e.1.Data? ==> IsData(e.1.value))
    && (!Assoc.HasKey(s.annotations, e.0) ==> !Shown(s, e.0, e.1))
  }

  /**
   * A class with plain annotated fields, without renames, groups or ignored
   * names, whose properties are all annotated when it is strict, and data
   * that matches it.
   */
  predicate Flat(s: ClassSchema, d: Assoc.Dict<Value>) {
    && s.mapping == [] && s.grouping == [] && s.ignored == []
    && (s.strict ==> forall i :: 0 <= i < |s.body| && IsProperty(s, s.body[i].0, s.body[i].1) ==> Assoc.HasKey(s.annotations, s.body[i].0))
    && Assoc.DistinctKeys(s.annotations) && Assoc.DistinctKeys(s.body)
    && (forall i :: 0 <= i < |s.annotations| ==> Readable(s, s.annotations[i], d))
    && (forall i :: 0 <= i < |d| ==> Assoc.HasKey(s.annotations, d[i].0))
    && (forall i :: 0 <= i < |s.body| ==> QuietDefault(s, s.body[i]))
  }

  lemma Accepted(t: Table, n: string, k: Kind, v: Value)
    requires Accepts(k, v)
    ensures Transform(t, n, v, k) == Ok(Out(v, []))
  {
    if k.Plain? {
      MatchingValueUnchanged(t, n, v, k.cls);
    } else {
      UnionOfClasses(t, n, v, k.alternatives);
    }
  }

  /** The first `m` annotations are all readable from `d`. */
  predicate AllReadable(s: ClassSchema, m: nat, d: Assoc.Dict<Value>)
    requires m <= |s.annotations|
  {
    m == 0 || (AllReadable(s, m - 1, d) && Readable(s, s.annotations[m - 1], d))
  }

  lemma {:induction false} EachReadable(s: ClassSchema, m: nat, d: Assoc.Dict<Value>)
    requires m <= |s.annotations| && forall i :: 0 <= i < m ==> Readable(s, s.annotations[i], d)
    ensures AllReadable(s, m, d)
  {
    if m > 0 {
      EachReadable(s, m - 1, d);
    }
  }

  /** One step of the annotation loop on a readable annotation stores the data's value under the field's wire name. */
  lemma FieldStep(t: Table, n: string, d: Value, m: nat, front: (Assoc.Dict<Value>, seq<Problem>)) returns (v: Value)
    requires n in t && d.VDict? && 0 < m <= |t[n].annotations| && t[n].ignored == []
    requires Readable(t[n], t[n].annotations[m - 1], d.entries)
    requires FieldsAre(t, n, d, m - 1, front)
    ensures Assoc.Get(d.entries, WireName(t[n], t[n].annotations[m - 1].0)) == Some(v) && IsData(v)
    ensures FieldsAre(t, n, d, m, (Assoc.Put(front.0, t[n].annotations[m - 1].0, v), front.1))
  {
    var s := t[n];
    var (name, k) := s.annotations[m - 1];
    v := Assoc.Get(d.entries, WireName(s, name)).value;
    assert ResolveKey(s, name, d.entries) == WireName(s, name);
    PresentKeyIsTransformed(t, n, d, name, k, v);
    Accepted(t, n, k, v);
    assert front.1 + [] == front.1;
  }

  predicate AllData(d: Assoc.Dict<Value>) {
    forall i :: 0 <= i < |d| ==> IsData(d[i].1)
  }

  lemma PutData(d: Assoc.Dict<Value>, k: string, v: Value)
    requires AllData(d) && IsData(v)
    ensures AllData(Assoc.Put(d, k, v))
  {
    var r := Assoc.Put(d, k, v);
    Assoc.PutValues(d, k, v);
    forall j | 0 <= j < |r| ensures IsData(r[j].1) {
      assert r[j].1 in Assoc.ValueSet(r);
      if r[j].1 != v {
        assert r[j].1 in Assoc.ValueSet(d);
      }
    }
  }

  /** The first `m` annotations stored: each under its name with the data's value under its wire name, and nothing else. */
  ghost predicate StoredPrefix(s: ClassSchema, m: nat, d: Assoc.Dict<Value>, attrs: Assoc.Dict<Value>)
    requires m <= |s.annotations|
  {
    && Assoc.DistinctKeys(attrs)
    && AllData(attrs)
    && (forall k :: Assoc.HasKey(attrs, k) ==> AmongFirst(s.annotations, m, k))
    && (forall i :: 0 <= i < m ==> Assoc.Get(attrs, s.annotations[i].0) == Assoc.Get(d, WireName(s, s.annotations[i].0)))
  }

  /** One of the first `m` annotations is named `k`. */
  predicate AmongFirst(ann: seq<(string, Kind)>, m: nat, k: string)
    requires m <= |ann|
  {
    m > 0 && (ann[m - 1].0 == k || AmongFirst(ann, m - 1, k))
  }

  lemma {:induction false} AmongFirstAt(ann: seq<(string, Kind)>, m: nat, k: string) returns (i: nat)
    requires m <= |ann| && AmongFirst(ann, m, k)
    ensures i < m && ann[i].0 == k
  {
    if ann[m - 1].0 == k {
      i := m - 1;
    } else {
      i := AmongFirstAt(ann, m - 1, k);
    }
  }

  /** Reading the first `m` readable annotations stores each field's data value under its name, and nothing else. */
  lemma {:induction false} ReadFields(t: Table, n: string, d: Value, m: nat) returns (f: (Assoc.Dict<Value>, seq<Problem>))
    requires n in t && d.VDict? && m <= |t[n].annotations|
    requires t[n].ignored == [] && Assoc.DistinctKeys(t[n].annotations)
    requires AllReadable(t[n], m, d.entries)
    ensures FieldsAre(t, n, d, m, f)
    ensures f.1 == [] && StoredPrefix(t[n], m, d.entries, f.0)
  {
    if m > 0 {
      var front := ReadFields(t, n, d, m - 1);
      var v := FieldStep(t, n, d, m, front);
      StoreField(front.0, t[n], m, d.entries, v);
      f := (Assoc.Put(front.0, t[n].annotations[m - 1].0, v), front.1);
    } else {
      f := ([], []);
    }
  }

  /** `StoredPrefix` carried over one more stored field. */
  lemma StoreField(attrs: Assoc.Dict<Value>, s: ClassSchema, m: nat, d: Assoc.Dict<Value>, v: Value)
    requires 0 < m <= |s.annotations| && Assoc.DistinctKeys(s.annotations)
    requires StoredPrefix(s, m - 1, d, attrs) && IsData(v)
    requires Assoc.Get(d, WireName(s, s.annotations[m - 1].0)) == Some(v)
    ensures StoredPrefix(s, m, d, Assoc.Put(attrs, s.annotations[m - 1].0, v))
  {
    var ann := s.annotations;
    var name := ann[m - 1].0;
    var r := Assoc.Put(attrs, name, v);
    Assoc.PutDistinct(attrs, name, v);
    PutData(attrs, name, v);
    forall key | Assoc.HasKey(r, key) ensures AmongFirst(ann, m, key) {
      if key != name {
        assert Assoc.Get(r, key) == Assoc.Get(attrs, key);
      }
    }
    forall i | 0 <= i < m ensures Assoc.Get(r, ann[i].0) == Assoc.Get(d, WireName(s, ann[i].0)) {
      if i < m - 1 {
        assert ann[i].0 != name;
      }
    }
  }

  /** Data whose every key is annotated leaves no key unmapped. */
  lemma {:induction false} NoneUnmapped(s: ClassSchema, d: Assoc.Dict<Value>)
    requires forall i :: 0 <= i < |d| ==> Annotated(s, d[i].0)
    ensures Unmapped(s, d) == []
    decreases |d|
  {
    if |d| > 0 {
      assert forall i :: 0 <= i < |d[1..]| ==> d[1..][i] == d[i + 1];
      NoneUnmapped(s, d[1..]);
    }
  }

  /** Properties that are all annotated give no missing-annotation problem. */
  lemma {:induction false} NoneUnannotated(n: string, s: ClassSchema, props: Assoc.Dict<Value>)
    requires forall i :: 0 <= i < |props| ==> Annotated(s, props[i].0)
    ensures UnannotatedOf(n, s, props) == []
    decreases |props|
  {
    if |props| > 0 {
      assert forall i :: 0 <= i < |props[1..]| ==> props[1..][i] == props[i + 1];
      NoneUnannotated(n, s, props[1..]);
    }
  }

  /** The instance a flat class builds from matching data: every field holds the data's value. */
  lemma FlatBuild(t: Table, n: string, d: Value) returns (attrs: Assoc.Dict<Value>)
    requires n in t && d.VDict? && Flat(t[n], d.entries)
    ensures FromDict(t, n, d) == Ok(Built(VObj(n, attrs), []))
    ensures Assoc.DistinctKeys(attrs) && AllData(attrs)
    ensures forall k :: Assoc.Get(attrs, k) == Assoc.Get(d.entries, k)
  {
    var s := t[n];
    EachReadable(s, |s.annotations|, d.entries);
    var f := ReadFields(t, n, d, |s.annotations|);
    attrs := f.0;
    if s.strict {
      NoneUnmapped(s, d.entries);
      var props := Properties(s);
      forall i | 0 <= i < |props| ensures Annotated(s, props[i].0) {
        assert Assoc.HasKey(props, props[i].0);
      }
      NoneUnannotated(n, s, props);
    }
    forall k ensures Assoc.Get(attrs, k) == Assoc.Get(d.entries, k) {
      if Assoc.HasKey(d.entries, k) {
        var j :| 0 <= j < |d.entries| && d.entries[j].0 == k;
        var i :| 0 <= i < |s.annotations| && s.annotations[i].0 == k;
        assert WireName(s, k) == k;
      } else if Assoc.HasKey(attrs, k) {
        var i := AmongFirstAt(s.annotations, |s.annotations|, k);
      }
    }
  }

  /** The entries of an instance with plain fields and quiet defaults that serialisation keeps are all plain values. */
  lemma QuietVisible(s: ClassSchema, attrs: Assoc.Dict<Value>)
    requires (forall i :: 0 <= i < |s.body| ==> QuietDefault(s, s.body[i])) && AllData(attrs)
    ensures PlainDefaults(s)
    ensures forall i :: 0 <= i < |Visible(s, Merge(s, attrs))| ==> Visible(s, Merge(s, attrs))[i].1.Data?
  {
    forall i | 0 <= i < |s.body| ensures Bounded(s.body[i].1, 0) {
      assert QuietDefault(s, s.body[i]);
      if s.body[i].1.Data? {
        DepthZeroIsData(s.body[i].1.value);
      }
    }
    var all := Merge(s, attrs);
    var vis := Visible(s, all);
    var w := Wrap(attrs);
    Assoc.UpdateValues(s.body, w);
    forall i | 0 <= i < |vis| ensures vis[i].1.Data? {
      var j :| 0 <= j < |all| && all[j] == vis[i] && Shown(s, vis[i].0, vis[i].1);
      assert all[j].1 in Assoc.ValueSet(all);
      if all[j].1 !in Assoc.ValueSet(w) {
        var b :| 0 <= b < |s.body| && s.body[b].1 == all[j].1;
        assert QuietDefault(s, s.body[b]);
      }
    }
  }

  /** A key of a flat class's gathered dictionary holds what the data holds. */
  lemma FlatKey(s: ClassSchema, attrs: Assoc.Dict<Value>, d: Assoc.Dict<Value>, k: string)
    requires Flat(s, d) && Assoc.DistinctKeys(attrs)
    requires forall k :: Assoc.Get(attrs, k) == Assoc.Get(d, k)
    ensures var all := Merge(s, attrs);
            Assoc.Get(Visible(s, all), k) == (match Assoc.Get(d, k) case Some(v) => Some(Data(v)) case None => None)
  {
    var all := Merge(s, attrs);
    MergeDistinct(s, attrs);
    VisibleGet(s, all, k);
    if Assoc.HasKey(attrs, k) {
      Assoc.GetLastDistinct(attrs, k);
      ShownField(s, d, k);
    } else if Assoc.Get(s.body, k).Some? {
      HiddenDefault(s, d, k);
    }
  }

  /** A key the data holds is a readable annotation, so serialisation shows it. */
  lemma ShownField(s: ClassSchema, d: Assoc.Dict<Value>, k: string)
    requires Flat(s, d) && Assoc.Get(d, k).Some?
    ensures Shown(s, k, Data(Assoc.Get(d, k).value))
  {
    var i :| 0 <= i < |d| && d[i].0 == k;
    assert Assoc.HasKey(s.annotations, k);
    var a :| 0 <= a < |s.annotations| && s.annotations[a].0 == k;
    assert Readable(s, s.annotations[a], d);
  }

  /** A class default under a key the data lacks is not an annotation, so serialisation hides it. */
  lemma HiddenDefault(s: ClassSchema, d: Assoc.Dict<Value>, k: string)
    requires Flat(s, d) && Assoc.Get(d, k).None? && Assoc.Get(s.body, k).Some?
    ensures !Shown(s, k, Assoc.Get(s.body, k).value)
  {
    forall a | 0 <= a < |s.annotations| ensures s.annotations[a].0 != k {
      assert Readable(s, s.annotations[a], d);
    }
    var b :| 0 <= b < |s.body| && s.body[b] == (k, Assoc.Get(s.body, k).value);
    assert QuietDefault(s, s.body[b]);
  }

  /** What a flat class's instance gathers for serialisation: the fields, under their names. */
  lemma FlatGather(s: ClassSchema, attrs: Assoc.Dict<Value>, d: Assoc.Dict<Value>)
    requires Flat(s, d) && Assoc.DistinctKeys(attrs) && AllData(attrs)
    requires forall k :: Assoc.Get(attrs, k) == Assoc.Get(d, k)
    ensures Gather(s, attrs).Ok?
    ensures forall k :: Assoc.Get(Gather(s, attrs).value, k) == Assoc.Get(d, k)
  {
    QuietVisible(s, attrs);
    var all := Merge(s, attrs);
    var vis := Visible(s, all);
    assert Assoc.Update(vis, Aliased(s.mapping, all)) == vis;
    assert Assoc.Keys(s.grouping) == [];
    assert Gather(s, attrs) == Plainly(vis);
    var g := Gather(s, attrs).value;
    forall k ensures Assoc.Get(g, k) == Assoc.Get(d, k) {
      FlatKey(s, attrs, d, k);
      PlainlyGet(vis, g, k);
    }
  }

  /**
   * `C(d, **kwargs)` for a flat class whose data, once updated with the
   * keyword arguments, matches it: every keyword argument is set to its last
   * given value and every other attribute to its value in `d`.
   */
  lemma FlatKwargs(t: Table, n: string, d: Assoc.Dict<Value>, kwargs: Assoc.Dict<Value>) returns (attrs: Assoc.Dict<Value>)
    requires n in t && Flat(t[n], Assoc.Update(d, kwargs))
    ensures New(t, n, VDict(d), kwargs) == Ok(Built(VObj(n, attrs), []))
    ensures forall k :: Assoc.HasKey(kwargs, k) ==> Assoc.Get(attrs, k) == Assoc.GetLast(kwargs, k)
    ensures forall k :: !Assoc.HasKey(kwargs, k) ==> Assoc.Get(attrs, k) == Assoc.Get(d, k)
  {
    var m := Assoc.Update(d, kwargs);
    NewIsUpdate(t, n, d, kwargs);
    attrs := FlatBuild(t, n, VDict(m));
  }

  /**
   * `C(d).serialize()` equals `d` as a dictionary for a flat class `C` and
   * data `d` that matches it.
   */
  lemma FlatRoundTrip(t: Table, n: string, d: Value)
    requires n in t && d.VDict? && Flat(t[n], d.entries)
    ensures New(t, n, d, []).Ok?
    ensures var obj := New(t, n, d, []).value.obj;
      && obj.VObj? && obj.cls == n
      && Serialize(t, obj, false).Ok?
      && Serialize(t, obj, false).value.VDict?
      && forall k :: Assoc.Get(Serialize(t, obj, false).value.entries, k) == Assoc.Get(d.entries, k)
  {
    var attrs := FlatBuild(t, n, d);
    var obj := VObj(n, attrs);
    assert New(t, n, d, []) == FromDict(t, n, d);
    FlatGather(t[n], attrs, d.entries);
    var props := Gather(t[n], attrs).value;
    EntriesDepthBound(obj, |attrs|, 0);
    forall i | 0 <= i < |attrs| ensures Depth(attrs[i].1) == 0 {
      DepthZeroIsData(attrs[i].1);
    }
    GatherDepth(t[n], n, attrs);
    DepthZeroIsData(VDict(props));
    DataUnchanged(t, VDict(props));
  }

  /**
   * `NativeUnionSimple('{"value": "roundtrip"}').serialize()` equals the data
   * as a dictionary; the class is strict and has the single field
   * `value: str | int = None`.
   */
  lemma UnionFieldRoundTrip()
    ensures var t := map["NativeUnionSimple" := ClassSchema([("value", UnionOf([StrT, IntT]))], [("value", Data(VNone))], [], [], [], true)];
            var d := VDict([("value", VStr("roundtrip"))]);
            && New(t, "NativeUnionSimple", d, []).Ok?
            && var obj := New(t, "NativeUnionSimple", d, []).value.obj;
            && obj.VObj? && obj.cls == "NativeUnionSimple"
            && Serialize(t, obj, false).Ok? && Serialize(t, obj, false).value.VDict?
            && forall k :: Assoc.Get(Serialize(t, obj, false).value.entries, k) == Assoc.Get(d.entries, k)
  {
    var s := ClassSchema([("value", UnionOf([StrT, IntT]))], [("value", Data(VNone))], [], [], [], true);
    var t := map["NativeUnionSimple" := s];
    var d := VDict([("value", VStr("roundtrip"))]);
    assert IsInstance(VStr("roundtrip"), s.annotations[0].1.alternatives[0]);
    assert "value"[..1] != "_" by { assert "value"[..1][0] == 'v'; }
    assert "value"[..2] != "__" by { assert "value"[..2][0] == 'v'; }
    assert Assoc.HasKey(s.annotations, "value") by { assert s.annotations[0].0 == "value"; }
    assert Flat(s, d.entries);
    FlatRoundTrip(t, "NativeUnionSimple", d);
  }
}
