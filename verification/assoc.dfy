/**
 * Python dictionaries remember insertion order.  A dictionary is modelled as a
 * sequence of key/value pairs with string keys (every dictionary of the
 * modelled code is keyed by names): `Put` is `d[k] = v` (a key already present
 * keeps its position and only its value changes, a new key goes to the end)
 * and `Update` is `d.update(e)`.
 */
module Assoc {
  import opened Outcomes

  type Dict<V> = seq<(string, V)>

  function Keys<V>(d: Dict<V>): (ks: seq<string>)
    ensures |ks| == |d|
    ensures forall i :: 0 <= i < |d| ==> ks[i] == d[i].0
  {
    if |d| == 0 then []
    else
      var r := [d[0].0] + Keys(d[1..]);
      assert forall i :: 1 <= i < |d| ==> r[i] == Keys(d[1..])[i - 1] && d[i] == d[1..][i - 1];
      r
  }

  predicate HasKey<V>(d: Dict<V>, k: string) {
    exists i :: 0 <= i < |d| && d[i].0 == k
  }

  function ValueSet<V>(d: Dict<V>): set<V> {
    set i | 0 <= i < |d| :: d[i].1
  }

  predicate DistinctKeys<V>(d: Dict<V>) {
    forall i, j :: 0 <= i < j < |d| ==> d[i].0 != d[j].0
  }

  /** `d[k]` / `d.get(k)`: the value stored under the first (in a Python dictionary, the only) occurrence of `k`. */
  function Get<V>(d: Dict<V>, k: string): (r: Option<V>)
    ensures r.None? <==> !HasKey(d, k)
    ensures r.Some? ==> exists i :: 0 <= i < |d| && d[i] == (k, r.value)
  {
    if |d| == 0 then None
    else if d[0].0 == k then Some(d[0].1)
    else
      var r := Get(d[1..], k);
      assert HasKey(d, k) ==> HasKey(d[1..], k) by {
        if HasKey(d, k) {
          var i :| 0 <= i < |d| && d[i].0 == k;
          assert d[1..][i - 1].0 == k;
        }
      }
      assert r.Some? ==> exists i :: 0 < i < |d| && d[i] == (k, r.value) by {
        if r.Some? {
          var j :| 0 <= j < |d[1..]| && d[1..][j] == (k, r.value);
          assert d[j + 1] == (k, r.value);
        }
      }
      r
  }

  /** The position of the entry `Get` reads. */
  function Find<V>(d: Dict<V>, k: string): (r: Option<nat>)
    ensures r.None? <==> !HasKey(d, k)
    ensures r.Some? ==> r.value < |d| && d[r.value].0 == k && Get(d, k) == Some(d[r.value].1)
    ensures r.Some? ==> forall j :: 0 <= j < r.value ==> d[j].0 != k
  {
    if |d| == 0 then None
    else if d[0].0 == k then Some(0)
    else
      HasKeyTail(d, k);
      match Find(d[1..], k)
      case None => None
      case Some(i) => Some(i + 1)
  }

  /** `Get` reads the entry at the first position holding `k`. */
  lemma {:induction false} GetAt<V>(d: Dict<V>, k: string, i: nat)
    requires i < |d| && d[i].0 == k
    requires forall j :: 0 <= j < i ==> d[j].0 != k
    ensures Get(d, k) == Some(d[i].1)
  {
    if i > 0 {
      assert d[0].0 != k;
      GetAt(d[1..], k, i - 1);
    }
  }

  /** `d[k] = v`. */
  function Put<V>(d: Dict<V>, k: string, v: V): (r: Dict<V>)
    ensures |r| == |d| || |r| == |d| + 1
    ensures Get(r, k) == Some(v)
    ensures forall k' :: k' != k ==> Get(r, k') == Get(d, k')
  {
    if |d| == 0 then [(k, v)]
    else if d[0].0 == k then
      var r := [(k, v)] + d[1..];
      assert forall k' :: k' != k ==> Get(r, k') == Get(r[1..], k');
      assert forall k' :: k' != k ==> Get(d, k') == Get(d[1..], k');
      assert r[1..] == d[1..];
      r
    else
      var rest := Put(d[1..], k, v);
      var r := [d[0]] + rest;
      assert r[1..] == rest;
      r
  }

  /** `d[k] = v` adds `k` to the keys and no other. */
  lemma PutHasKey<V>(d: Dict<V>, k: string, v: V)
    ensures forall k' :: HasKey(Put(d, k, v), k') <==> HasKey(d, k') || k' == k
  {
    forall k' ensures HasKey(Put(d, k, v), k') <==> HasKey(d, k') || k' == k {
      var before := Get(d, k');
      var after := Get(Put(d, k, v), k');
    }
  }

  /** `PutHasKey` for one key. */
  lemma PutHasKeyAt<V>(d: Dict<V>, k: string, v: V, k': string)
    ensures HasKey(Put(d, k, v), k') <==> HasKey(d, k') || k' == k
  {
    var after := Get(Put(d, k, v), k');
  }

  /** The first `n` entries hold `k` when the first `n - 1` do or the `n`-th is `k`. */
  lemma HasKeyPrefix<V>(d: Dict<V>, n: nat, k: string)
    requires 0 < n <= |d|
    ensures HasKey(d[..n], k) <==> HasKey(d[..n - 1], k) || d[n - 1].0 == k
  {
    var front := d[..n - 1];
    assert forall i :: 0 <= i < n - 1 ==> d[..n][i] == front[i];
    if d[n - 1].0 == k {
      assert d[..n][n - 1].0 == k;
    }
  }

  /** Appending a pair adds exactly its key. */
  lemma HasKeyAppend<V>(d: Dict<V>, p: (string, V), k: string)
    ensures HasKey(d + [p], k) <==> HasKey(d, k) || p.0 == k
  {
    var r := d + [p];
    assert r[|d|] == p;
    if HasKey(d, k) {
      var i :| 0 <= i < |d| && d[i].0 == k;
      assert r[i] == d[i];
    }
  }

  /** The keys of a non-empty dictionary: its first key and the keys of the rest. */
  lemma ConsKeys<V>(r: Dict<V>)
    requires |r| > 0
    ensures forall k :: HasKey(r, k) <==> k == r[0].0 || HasKey(r[1..], k)
  {
    forall k | HasKey(r, k) ensures k == r[0].0 || HasKey(r[1..], k) {
      var j :| 0 <= j < |r| && r[j].0 == k;
      if j > 0 { assert r[1..][j - 1].0 == k; }
    }
    forall k | HasKey(r[1..], k) ensures HasKey(r, k) {
      var j :| 0 <= j < |r[1..]| && r[1..][j].0 == k;
      assert r[j + 1].0 == k;
    }
  }

  /** The entries after the first of a dictionary without repeated keys have no repeated keys. */
  lemma DistinctTail<V>(d: Dict<V>)
    requires |d| > 0 && DistinctKeys(d)
    ensures DistinctKeys(d[1..])
  {
    forall i, j | 0 <= i < j < |d[1..]| ensures d[1..][i].0 != d[1..][j].0 {
      assert d[1..][i] == d[i + 1] && d[1..][j] == d[j + 1];
    }
  }

  /** The first key of a dictionary without repeated keys does not occur again. */
  lemma DistinctHead<V>(d: Dict<V>)
    requires |d| > 0 && DistinctKeys(d)
    ensures !HasKey(d[1..], d[0].0)
  {
    forall i | 0 <= i < |d[1..]| ensures d[1..][i].0 != d[0].0 {
      assert d[1..][i] == d[i + 1];
    }
  }

  lemma HasKeyTail<V>(d: Dict<V>, k: string)
    requires |d| > 0 && d[0].0 != k
    ensures HasKey(d, k) <==> HasKey(d[1..], k)
  {
    if HasKey(d, k) {
      var i :| 0 <= i < |d| && d[i].0 == k;
      assert d[1..][i - 1].0 == k;
    }
    if HasKey(d[1..], k) {
      var i :| 0 <= i < |d[1..]| && d[1..][i].0 == k;
      assert d[i + 1].0 == k;
    }
  }

  /** Storing a key keeps the position of every existing key and appends a new one. */
  lemma {:induction false} PutKeys<V>(d: Dict<V>, k: string, v: V)
    ensures HasKey(d, k) ==> Keys(Put(d, k, v)) == Keys(d)
    ensures !HasKey(d, k) ==> Keys(Put(d, k, v)) == Keys(d) + [k]
  {
    if |d| == 0 {
    } else if d[0].0 == k {
      assert HasKey(d, k);
      assert Put(d, k, v) == [(k, v)] + d[1..];
    } else {
      PutKeys(d[1..], k, v);
      HasKeyTail(d, k);
      PutPast(d, k, v);
      KeysCons(Put(d, k, v));
      KeysCons(d);
    }
  }

  /** Storing a key the first entry does not have leaves that entry in front. */
  lemma PutPast<V>(d: Dict<V>, k: string, v: V)
    requires |d| > 0 && d[0].0 != k
    ensures Put(d, k, v)[0] == d[0] && Put(d, k, v)[1..] == Put(d[1..], k, v)
  {
    assert Put(d, k, v) == [d[0]] + Put(d[1..], k, v);
  }

  /** The keys of a non-empty dictionary are its first key followed by the keys of the rest. */
  lemma KeysCons<V>(d: Dict<V>)
    requires |d| > 0
    ensures Keys(d) == [d[0].0] + Keys(d[1..])
  {
  }

  /** Storing a value introduces no value other than the one stored. */
  lemma {:induction false} PutValues<V>(d: Dict<V>, k: string, v: V)
    ensures ValueSet(Put(d, k, v)) <= ValueSet(d) + {v}
  {
    var r := Put(d, k, v);
    if |d| == 0 {
    } else if d[0].0 == k {
      assert r == [(k, v)] + d[1..];
      forall x | x in ValueSet(r) ensures x in ValueSet(d) + {v} {
        var i :| 0 <= i < |r| && r[i].1 == x;
        if i > 0 { assert d[i].1 == x; }
      }
    } else {
      PutValues(d[1..], k, v);
      var rest := Put(d[1..], k, v);
      assert r == [d[0]] + rest;
      forall x | x in ValueSet(r) ensures x in ValueSet(d) + {v} {
        var i :| 0 <= i < |r| && r[i].1 == x;
        if i > 0 {
          assert rest[i - 1].1 == x;
          assert x in ValueSet(rest);
          if x != v {
            var j :| 0 <= j < |d[1..]| && d[1..][j].1 == x;
            assert d[j + 1].1 == x;
          }
        }
      }
    }
  }

  /** Storing a value keeps the keys of a Python dictionary distinct. */
  lemma {:induction false} PutDistinct<V>(d: Dict<V>, k: string, v: V)
    requires DistinctKeys(d)
    ensures DistinctKeys(Put(d, k, v))
  {
    var r := Put(d, k, v);
    if |d| == 0 {
    } else if d[0].0 == k {
      assert r == [(k, v)] + d[1..];
      assert forall i :: 0 < i < |r| ==> r[i] == d[i];
    } else {
      PutDistinct(d[1..], k, v);
      var rest := Put(d[1..], k, v);
      assert r == [d[0]] + rest;
      assert !HasKey(d[1..], d[0].0);
      assert Get(rest, d[0].0) == Get(d[1..], d[0].0);
      assert !HasKey(rest, d[0].0);
      forall i, j | 0 <= i < j < |r| ensures r[i].0 != r[j].0 {
        if i == 0 {
          assert rest[j - 1].0 == r[j].0;
        } else {
          assert rest[i - 1].0 == r[i].0 && rest[j - 1].0 == r[j].0;
        }
      }
    }
  }

  /** The value of the LAST occurrence of `k` in `e`: what `dict(e)` keeps. */
  function GetLast<V>(e: Dict<V>, k: string): (r: Option<V>)
    ensures r.None? <==> !HasKey(e, k)
  {
    if |e| == 0 then None
    else if e[|e| - 1].0 == k then Some(e[|e| - 1].1)
    else
      assert HasKey(e, k) <==> HasKey(e[..|e| - 1], k) by {
        if HasKey(e, k) {
          var i :| 0 <= i < |e| && e[i].0 == k;
          assert e[..|e| - 1][i].0 == k;
        }
      }
      GetLast(e[..|e| - 1], k)
  }

  /** `GetLast` reads the entry at the last position holding `k`. */
  lemma {:induction false} GetLastAt<V>(e: Dict<V>, k: string, i: nat)
    requires i < |e| && e[i].0 == k
    requires forall j :: i < j < |e| ==> e[j].0 != k
    ensures GetLast(e, k) == Some(e[i].1)
  {
    if i < |e| - 1 {
      assert e[|e| - 1].0 != k;
      GetLastAt(e[..|e| - 1], k, i);
    }
  }

  /** The value `GetLast` finds is stored under `k` somewhere in `e`. */
  lemma {:induction false} GetLastIn<V>(e: Dict<V>, k: string)
    requires HasKey(e, k)
    ensures exists i :: 0 <= i < |e| && e[i] == (k, GetLast(e, k).value)
  {
    if e[|e| - 1].0 != k {
      GetLastIn(e[..|e| - 1], k);
      var i :| 0 <= i < |e| - 1 && e[..|e| - 1][i] == (k, GetLast(e, k).value);
      assert e[i] == e[..|e| - 1][i];
    }
  }

  /** Appending a pair for another key does not change the last value of `k`. */
  lemma GetLastAppend<V>(e: Dict<V>, k': string, x: Option<V>, k: string)
    requires k' != k
    ensures x.Some? ==> GetLast(e + [(k', x.value)], k) == GetLast(e, k)
  {
    if x.Some? {
      assert (e + [(k', x.value)])[..|e|] == e;
    }
  }

  /** `d.update(e)`: the pairs of `e` are stored one after the other, so a later pair wins. */
  function Update<V>(d: Dict<V>, e: Dict<V>): (r: Dict<V>)
    ensures forall k :: HasKey(e, k) ==> Get(r, k) == GetLast(e, k)
    ensures forall k :: !HasKey(e, k) ==> Get(r, k) == Get(d, k)
  {
    if |e| == 0 then d
    else
      var last := e[|e| - 1];
      var prefix := e[..|e| - 1];
      assert forall k :: HasKey(e, k) <==> HasKey(prefix, k) || k == last.0 by {
        forall k ensures HasKey(e, k) <==> HasKey(prefix, k) || k == last.0 {
          if HasKey(e, k) {
            var i :| 0 <= i < |e| && e[i].0 == k;
            if i < |e| - 1 { assert prefix[i].0 == k; }
          }
          if HasKey(prefix, k) {
            var i :| 0 <= i < |prefix| && prefix[i].0 == k;
            assert e[i].0 == k;
          }
        }
      }
      Put(Update(d, prefix), last.0, last.1)
  }

  /** The values of `d.update(e)` all come from `d` or `e`. */
  lemma {:induction false} UpdateValues<V>(d: Dict<V>, e: Dict<V>)
    ensures ValueSet(Update(d, e)) <= ValueSet(d) + ValueSet(e)
    ensures DistinctKeys(d) ==> DistinctKeys(Update(d, e))
  {
    if |e| > 0 {
      var last := e[|e| - 1];
      var prefix := e[..|e| - 1];
      UpdateValues(d, prefix);
      PutValues(Update(d, prefix), last.0, last.1);
      if DistinctKeys(d) {
        PutDistinct(Update(d, prefix), last.0, last.1);
      }
      assert ValueSet(prefix) + {last.1} <= ValueSet(e) by {
        forall x | x in ValueSet(prefix) ensures x in ValueSet(e) {
          var i :| 0 <= i < |prefix| && prefix[i].1 == x;
          assert e[i].1 == x;
        }
      }
    }
  }

  /** In a dictionary without repeated keys the first and the last occurrence coincide. */
  lemma {:induction false} GetLastDistinct<V>(d: Dict<V>, k: string)
    requires DistinctKeys(d)
    ensures GetLast(d, k) == Get(d, k)
  {
    if |d| > 0 {
      var last := d[|d| - 1];
      var prefix := d[..|d| - 1];
      assert DistinctKeys(prefix) by {
        forall i, j | 0 <= i < j < |prefix| ensures prefix[i].0 != prefix[j].0 {
          assert prefix[i] == d[i] && prefix[j] == d[j];
        }
      }
      GetLastDistinct(prefix, k);
      GetPrefix(d, k);
    }
  }

  /** Looking a key up in all but the last pair, or in the last pair. */
  lemma {:induction false} GetPrefix<V>(d: Dict<V>, k: string)
    requires |d| > 0 && DistinctKeys(d)
    ensures d[|d| - 1].0 == k ==> Get(d, k) == Some(d[|d| - 1].1)
    ensures d[|d| - 1].0 != k ==> Get(d, k) == Get(d[..|d| - 1], k)
  {
    if |d| > 1 {
      assert DistinctKeys(d[1..]) by {
        forall i, j | 0 <= i < j < |d[1..]| ensures d[1..][i].0 != d[1..][j].0 {
          assert d[1..][i] == d[i + 1] && d[1..][j] == d[j + 1];
        }
      }
      GetPrefix(d[1..], k);
      assert d[1..][..|d[1..]| - 1] == d[..|d| - 1][1..];
    }
  }

  /** Without repeated keys, the entries before position `n - 1` do not hold its key. */
  lemma PrefixLacksLast<V>(d: Dict<V>, n: nat)
    requires 0 < n <= |d| && DistinctKeys(d)
    ensures !HasKey(d[..n - 1], d[n - 1].0)
  {
    var prefix := d[..n - 1];
    forall i | 0 <= i < |prefix| ensures prefix[i].0 != d[n - 1].0 {
      assert prefix[i] == d[i];
    }
  }

  /** `GetLast` over a prefix of a dictionary reads the prefix's last pair first. */
  lemma GetLastPrefix<V>(d: Dict<V>, n: nat, k: string)
    requires 0 < n <= |d|
    ensures GetLast(d[..n], k) == if d[n - 1].0 == k then Some(d[n - 1].1) else GetLast(d[..n - 1], k)
  {
    assert d[..n][..n - 1] == d[..n - 1];
  }
}
