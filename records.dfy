/** A plain JavaScript object as seen by `Object.entries`: its own string keys
    with their values, in enumeration order. Assigning an existing key keeps its
    position; assigning a new key appends it; `{...a, ...b}` assigns every entry
    of `b` to a copy of `a` in order. */
module Records {
  import opened Wrappers

  type Record<V> = seq<(string, V)>

  /** An object never holds the same key twice. */
  ghost predicate DistinctKeys<V>(r: Record<V>) {
    forall i, j :: 0 <= i < j < |r| ==> r[i].0 != r[j].0
  }

  /** The own keys of `r`. */
  function Keys<V>(r: Record<V>): set<string> {
    set i | 0 <= i < |r| :: r[i].0
  }

  lemma KeysCons<V>(r: Record<V>)
    requires r != []
    ensures Keys(r) == {r[0].0} + Keys(r[1..])
  {
    forall k | k in Keys(r) ensures k in {r[0].0} + Keys(r[1..]) {
      var i :| 0 <= i < |r| && r[i].0 == k;
      if i > 0 { assert r[1..][i - 1].0 == k; }
    }
    forall k | k in Keys(r[1..]) ensures k in Keys(r) {
      var i :| 0 <= i < |r[1..]| && r[1..][i].0 == k;
      assert r[i + 1].0 == k;
    }
  }

  /** `hasOwnProperty(k) ? r[k] : absent` */
  function Find<V>(r: Record<V>, k: string): (o: Option<V>)
    ensures o.None? <==> k !in Keys(r)
    ensures o.Some? ==> (k, o.value) in r
  {
    if r == [] then None
    else
      KeysCons(r);
      if r[0].0 == k then Some(r[0].1) else Find(r[1..], k)
  }

  /** `r[k] = v` on a copy: an existing key keeps its place, a new key goes last. */
  function Put<V>(r: Record<V>, k: string, v: V): (r': Record<V>)
    ensures Keys(r') == Keys(r) + {k}
    ensures k in Keys(r) ==> |r'| == |r|
    ensures k !in Keys(r) ==> r' == r + [(k, v)]
  {
    if r == [] then
      assert Keys([(k, v)]) == {k} by { assert [(k, v)][0].0 == k; }
      [(k, v)]
    else
      KeysCons(r);
      var rest := if r[0].0 == k then r[1..] else Put(r[1..], k, v);
      var r' := if r[0].0 == k then [(k, v)] + rest else [r[0]] + rest;
      KeysCons(r');
      assert r'[1..] == rest;
      r'
  }

  /** Reading a key after assigning one. */
  lemma {:induction false} FindPut<V>(r: Record<V>, k: string, v: V, j: string)
    ensures Find(Put(r, k, v), j) == if j == k then Some(v) else Find(r, j)
  {
    if r != [] && r[0].0 != k {
      FindPut(r[1..], k, v, j);
      assert Put(r, k, v)[1..] == Put(r[1..], k, v);
    } else if r != [] {
      assert Put(r, k, v)[1..] == r[1..];
    }
  }

  /** An object has distinct keys exactly when its tail does and its first
      key does not occur in the tail. */
  lemma DistinctCons<V>(r: Record<V>)
    requires r != []
    ensures DistinctKeys(r) <==> DistinctKeys(r[1..]) && r[0].0 !in Keys(r[1..])
  {
    var t := r[1..];
    if DistinctKeys(r) {
      forall i, j | 0 <= i < j < |t| ensures t[i].0 != t[j].0 {
        assert t[i] == r[i + 1] && t[j] == r[j + 1];
      }
      forall i | 0 <= i < |t| ensures t[i].0 != r[0].0 {
        assert t[i] == r[i + 1];
      }
    }
    if DistinctKeys(t) && r[0].0 !in Keys(t) {
      forall i, j | 0 <= i < j < |r| ensures r[i].0 != r[j].0 {
        assert r[j] == t[j - 1];
        if i > 0 {
          assert r[i] == t[i - 1];
        } else {
          assert t[j - 1].0 in Keys(t);
        }
      }
    }
  }

  /** In an object with distinct keys, a read is answered by the first entry
      when it has the key, and otherwise by the rest, which has distinct keys
      too and never holds the first key. */
  lemma FindTail<V>(r: Record<V>, key: string)
    requires r != [] && DistinctKeys(r)
    ensures DistinctKeys(r[1..])
    ensures Find(r, key) == if r[0].0 == key then Some(r[0].1) else Find(r[1..], key)
    ensures r[0].0 == key ==> Find(r[1..], key).None?
  {
    DistinctCons(r);
  }

  /** Assignment keeps an object's keys distinct. */
  lemma {:induction false} PutDistinct<V>(r: Record<V>, k: string, v: V)
    requires DistinctKeys(r)
    ensures DistinctKeys(Put(r, k, v))
  {
    if r != [] {
      var r' := Put(r, k, v);
      DistinctCons(r);
      if r[0].0 != k {
        PutDistinct(r[1..], k, v);
      }
      assert r' != [] && r'[0].0 == r[0].0;
      assert r'[1..] == if r[0].0 == k then r[1..] else Put(r[1..], k, v);
      DistinctCons(r');
    }
  }

  /** `{...r, ...es}`: assigns every entry of `es` to `r`, in order. */
  function PutAll<V>(r: Record<V>, es: Record<V>): (r': Record<V>)
    ensures Keys(r') == Keys(r) + Keys(es)
    decreases |es|
  {
    if es == [] then r
    else
      KeysCons(es);
      PutAll(Put(r, es[0].0, es[0].1), es[1..])
  }

  /** The value of the last entry of `es` with key `k`: the one that wins in a spread. */
  function FindLast<V>(es: Record<V>, k: string): (o: Option<V>)
    ensures o.None? <==> k !in Keys(es)
  {
    if es == [] then None
    else
      var last := es[|es| - 1];
      var init := es[..|es| - 1];
      assert es == init + [last];
      assert Keys(es) == Keys(init) + {last.0} by {
        forall j | j in Keys(es) ensures j in Keys(init) + {last.0} {
          var i :| 0 <= i < |es| && es[i].0 == j;
          if i < |es| - 1 { assert init[i].0 == j; }
        }
        forall j | j in Keys(init) ensures j in Keys(es) {
          var i :| 0 <= i < |init| && init[i].0 == j;
          assert es[i].0 == j;
        }
      }
      if last.0 == k then Some(last.1) else FindLast(init, k)
  }

  lemma {:induction false} FindLastCons<V>(es: Record<V>, k: string)
    requires es != []
    ensures FindLast(es, k) ==
      if FindLast(es[1..], k).Some? then FindLast(es[1..], k)
      else if es[0].0 == k then Some(es[0].1) else None
  {
    if |es| > 1 {
      assert es[..|es| - 1][1..] == es[1..][..|es[1..]| - 1];
      FindLastCons(es[..|es| - 1], k);
    }
  }

  /** Reading a key after a spread: the last assignment of `es` to `k` wins,
      otherwise `r`'s own value is kept. */
  lemma {:induction false} FindPutAll<V>(r: Record<V>, es: Record<V>, k: string)
    ensures Find(PutAll(r, es), k) ==
      if FindLast(es, k).Some? then FindLast(es, k) else Find(r, k)
    decreases |es|
  {
    if es != [] {
      FindPutAll(Put(r, es[0].0, es[0].1), es[1..], k);
      FindPut(r, es[0].0, es[0].1, k);
      FindLastCons(es, k);
    }
  }

  /** A spread keeps an object's keys distinct. */
  lemma {:induction false} PutAllDistinct<V>(r: Record<V>, es: Record<V>)
    requires DistinctKeys(r)
    ensures DistinctKeys(PutAll(r, es))
    decreases |es|
  {
    if es != [] {
      PutDistinct(r, es[0].0, es[0].1);
      PutAllDistinct(Put(r, es[0].0, es[0].1), es[1..]);
    }
  }

  /** In an object with distinct keys, the first and the last entry of a key are the same. */
  lemma {:induction false} FindLastDistinct<V>(es: Record<V>, k: string)
    requires DistinctKeys(es)
    ensures FindLast(es, k) == Find(es, k)
    decreases |es|
  {
    if es != [] {
      KeysCons(es);
      assert DistinctKeys(es[1..]) by {
        forall i, j | 0 <= i < j < |es[1..]| ensures es[1..][i].0 != es[1..][j].0 {
          assert es[i + 1].0 != es[j + 1].0;
        }
      }
      FindLastDistinct(es[1..], k);
      FindLastCons(es, k);
      assert es[0].0 !in Keys(es[1..]) by {
        forall i | 0 <= i < |es[1..]| ensures es[1..][i].0 != es[0].0 {
          assert es[i + 1].0 != es[0].0;
        }
      }
    }
  }
}
