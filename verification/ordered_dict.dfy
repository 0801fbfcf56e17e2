/**
 * A Python `dict` keyed by integers, with its iteration order: a list of key/value pairs in
 * insertion order. Assigning to a key that is already present replaces its
 * value in place; a new key goes at the end.
 */
module OrderedDict {
  import opened Optional

  type Dict<V> = seq<(int, V)>

  function Keys<V>(d: Dict<V>): set<int>
  {
    set i | 0 <= i < |d| :: d[i].0
  }

  /** No key appears twice. */
  predicate Unique<V>(d: Dict<V>) {
    forall i, j :: 0 <= i < j < |d| ==> d[i].0 != d[j].0
  }

  /** The keys of a dictionary with one more pair in front. */
  lemma KeysCons<V>(x: (int, V), d: Dict<V>)
    ensures Keys([x] + d) == {x.0} + Keys(d)
  {
    var e := [x] + d;
    assert e[0] == x;
    forall y | y in Keys(e) ensures y in {x.0} + Keys(d) {
      var i :| 0 <= i < |e| && e[i].0 == y;
      if i > 0 { assert d[i - 1].0 == y; }
    }
    forall y | y in Keys(d) ensures y in Keys(e) {
      var i :| 0 <= i < |d| && d[i].0 == y;
      assert e[i + 1].0 == y;
    }
  }

  /** `d.get(k)`: the value stored under `k`. */
  function Get<V>(d: Dict<V>, k: int): (r: Option<V>)
    ensures r.Some? <==> k in Keys(d)
    ensures r.Some? ==> exists i :: 0 <= i < |d| && d[i] == (k, r.value)
    decreases |d|
  {
    if |d| == 0 then None
    else if d[0].0 == k then Some(d[0].1)
    else
      var r := Get(d[1..], k);
      assert Keys(d) == {d[0].0} + Keys(d[1..]) by {
        KeysCons(d[0], d[1..]);
        assert d == [d[0]] + d[1..];
      }
      assert r.Some? ==> exists i :: 0 <= i < |d| && d[i] == (k, r.value) by {
        if r.Some? {
          var i :| 0 <= i < |d[1..]| && d[1..][i] == (k, r.value);
          assert d[i + 1] == (k, r.value);
        }
      }
      r
  }

  /** `d[k] = v` */
  function Put<V>(d: Dict<V>, k: int, v: V): (r: Dict<V>)
    ensures Get(r, k) == Some(v)
    ensures Keys(r) == Keys(d) + {k}
    ensures k in Keys(d) ==> |r| == |d| && forall i :: 0 <= i < |d| ==> r[i].0 == d[i].0
    ensures k !in Keys(d) ==> r == d + [(k, v)]
    decreases |d|
  {
    if |d| == 0 then [(k, v)]
    else if d[0].0 == k then
      KeysCons(d[0], d[1..]);
      KeysCons((k, v), d[1..]);
      assert d == [d[0]] + d[1..];
      [(k, v)] + d[1..]
    else
      var rest := Put(d[1..], k, v);
      var r := [d[0]] + rest;
      assert r[1..] == rest;
      assert d == [d[0]] + d[1..];
      KeysCons(d[0], d[1..]);
      KeysCons(d[0], rest);
      r
  }

  /** Assigning to `k` leaves the value under every other key as it was. */
  lemma {:induction false} PutKeepsOthers<V>(d: Dict<V>, k: int, v: V, j: int)
    requires j != k
    ensures Get(Put(d, k, v), j) == Get(d, j)
    decreases |d|
  {
    if |d| > 0 && d[0].0 != k {
      var rest := Put(d[1..], k, v);
      PutKeepsOthers(d[1..], k, v, j);
      assert ([d[0]] + rest)[1..] == rest;
    }
  }

  /** Assigning keeps keys distinct. */
  lemma {:induction false} PutPreservesUnique<V>(d: Dict<V>, k: int, v: V)
    requires Unique(d)
    ensures Unique(Put(d, k, v))
    decreases |d|
  {
    if |d| > 0 && d[0].0 != k {
      var rest := Put(d[1..], k, v);
      PutPreservesUnique(d[1..], k, v);
      assert d[0].0 !in Keys(rest) by {
        assert d[0].0 !in Keys(d[1..]) by {
          forall i | 0 <= i < |d[1..]| ensures d[1..][i].0 != d[0].0 {
            assert d[1..][i] == d[i + 1];
          }
        }
      }
      assert Put(d, k, v) == [d[0]] + rest;
      ConsUnique(d[0], rest);
    } else if |d| > 0 {
      assert Put(d, k, v) == [(k, v)] + d[1..];
      assert Unique(d[1..]);
      assert (k, v).0 !in Keys(d[1..]) by {
        forall i | 0 <= i < |d[1..]| ensures d[1..][i].0 != k {
          assert d[1..][i] == d[i + 1];
        }
      }
      ConsUnique((k, v), d[1..]);
    }
  }

  /** A pair whose key is new, in front of a dictionary without repeated keys. */
  lemma ConsUnique<V>(x: (int, V), d: Dict<V>)
    requires Unique(d) && x.0 !in Keys(d)
    ensures Unique([x] + d)
  {
    var e := [x] + d;
    forall i, j | 0 <= i < j < |e| ensures e[i].0 != e[j].0 {
      assert e[j] == d[j - 1];
      if i > 0 { assert e[i] == d[i - 1]; }
      else { assert d[j - 1].0 in Keys(d); }
    }
  }
}
