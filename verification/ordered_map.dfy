/** A Python `dict` as the sequence of its entries in insertion order.
    Lookup takes the first entry with the key; assignment to a present key
    replaces its value in place and assignment to a new key appends, which
    is what makes `d.items()` and `d.values()` come out in first-insertion
    order. The bots' constant tables are written the same way. */
module OrderedMap {
  import opened Wrappers
  import Seqs

  /** The keys, in insertion order. */
  function Keys<K, V>(m: seq<(K, V)>): (ks: seq<K>)
    ensures |ks| == |m|
  {
    if |m| == 0 then [] else [m[0].0] + Keys(m[1..])
  }

  /** The `i`-th key is the key of the `i`-th entry. */
  lemma {:induction false} KeysIndex<K, V>(m: seq<(K, V)>)
    ensures forall i :: 0 <= i < |m| ==> Keys(m)[i] == m[i].0
    decreases |m|
  {
    if |m| > 0 {
      KeysIndex(m[1..]);
    }
  }

  /** The keys of a concatenation are the concatenated keys. */
  lemma {:induction false} KeysAppend<K, V>(a: seq<(K, V)>, b: seq<(K, V)>)
    ensures Keys(a + b) == Keys(a) + Keys(b)
    decreases |a|
  {
    if |a| == 0 {
      assert a + b == b;
    } else {
      assert (a + b)[1..] == a[1..] + b;
      KeysAppend(a[1..], b);
    }
  }

  /** The values, in insertion order (`d.values()`). */
  function Values<K, V>(m: seq<(K, V)>): (vs: seq<V>)
    ensures |vs| == |m|
    ensures forall i :: 0 <= i < |m| ==> vs[i] == m[i].1
  {
    seq(|m|, i requires 0 <= i < |m| => m[i].1)
  }

  /** No key occurs twice: every `dict` has this shape. */
  ghost predicate DistinctKeys<K, V>(m: seq<(K, V)>) {
    Seqs.Distinct(Keys(m))
  }

  /** `d.get(k)`: the value of the first entry with key `k`. */
  function Get<K(==), V>(m: seq<(K, V)>, k: K): (r: Option<V>)
    ensures r.None? <==> k !in Keys(m)
    ensures r.Some? ==> (k, r.value) in m
    decreases |m|
  {
    if |m| == 0 then None
    else if m[0].0 == k then Some(m[0].1)
    else Get(m[1..], k)
  }

  /** The entry has key `k`. */
  function HasKey<K(==), V>(k: K): ((K, V)) -> bool {
    (e: (K, V)) => e.0 == k
  }

  /** Lookup finds the first entry with the key; in a `dict` that is the only one. */
  lemma {:induction false} GetFirst<K, V>(m: seq<(K, V)>, k: K, i: nat)
    requires Seqs.IsFirst(m, i, HasKey(k))
    ensures Get(m, k) == Some(m[i].1)
    decreases i
  {
    if i > 0 {
      assert HasKey(k)(m[0]) == false;
      assert Seqs.IsFirst(m[1..], i - 1, HasKey(k)) by {
        forall j | 0 <= j < i - 1
          ensures !HasKey(k)(m[1..][j])
        {
          assert m[1..][j] == m[j + 1];
        }
      }
      GetFirst(m[1..], k, i - 1);
    }
  }

  /** In a `dict`, every entry is the first with its key. */
  lemma FirstOfDistinct<K, V>(m: seq<(K, V)>, i: nat)
    requires DistinctKeys(m) && i < |m|
    ensures Seqs.IsFirst(m, i, HasKey(m[i].0))
  {
    KeysIndex(m);
    forall j | 0 <= j < i
      ensures !HasKey(m[i].0)(m[j])
    {
      assert Keys(m)[j] != Keys(m)[i];
    }
  }

  /** In a `dict`, looking up an entry's key gives that entry's value. */
  lemma GetDistinct<K, V>(m: seq<(K, V)>, i: nat)
    requires DistinctKeys(m) && i < |m|
    ensures Get(m, m[i].0) == Some(m[i].1)
  {
    FirstOfDistinct(m, i);
    GetFirst(m, m[i].0, i);
  }

  /** Keys that differ entry by entry are distinct. */
  lemma DistinctKeysIntro<K, V>(m: seq<(K, V)>)
    requires forall i, j :: 0 <= i < j < |m| ==> m[i].0 != m[j].0
    ensures DistinctKeys(m)
  {
    KeysIndex(m);
  }

  /** `d[k] = v`. */
  function Put<K(==,!new), V>(m: seq<(K, V)>, k: K, v: V): (r: seq<(K, V)>)
    ensures Keys(r) == if k in Keys(m) then Keys(m) else Keys(m) + [k]
    ensures Get(r, k) == Some(v)
    ensures forall k' :: k' != k ==> Get(r, k') == Get(m, k')
    decreases |m|
  {
    if |m| == 0 then [(k, v)]
    else if m[0].0 == k then
      PutHere(m, k, v);
      [(k, v)] + m[1..]
    else
      var rest := Put(m[1..], k, v);
      PutPast(m, k, v, rest);
      [m[0]] + rest
  }

  /** Assignment to the first entry's key replaces that entry. */
  lemma PutHere<K, V>(m: seq<(K, V)>, k: K, v: V)
    requires |m| > 0 && m[0].0 == k
    ensures Keys([(k, v)] + m[1..]) == Keys(m)
    ensures Get([(k, v)] + m[1..], k) == Some(v)
    ensures forall k' :: k' != k ==> Get([(k, v)] + m[1..], k') == Get(m, k')
  {
    var r := [(k, v)] + m[1..];
    assert r[1..] == m[1..];
  }

  /** Assignment past the first entry keeps it in front of the rest. */
  lemma PutPast<K, V>(m: seq<(K, V)>, k: K, v: V, rest: seq<(K, V)>)
    requires |m| > 0 && m[0].0 != k
    requires Keys(rest) == if k in Keys(m[1..]) then Keys(m[1..]) else Keys(m[1..]) + [k]
    requires Get(rest, k) == Some(v)
    requires forall k' :: k' != k ==> Get(rest, k') == Get(m[1..], k')
    ensures Keys([m[0]] + rest) == if k in Keys(m) then Keys(m) else Keys(m) + [k]
    ensures Get([m[0]] + rest, k) == Some(v)
    ensures forall k' :: k' != k ==> Get([m[0]] + rest, k') == Get(m, k')
  {
    var r := [m[0]] + rest;
    assert r[1..] == rest;
    assert Keys(r) == [m[0].0] + Keys(rest);
    assert Keys(m) == [m[0].0] + Keys(m[1..]);
    assert k in Keys(m) <==> k in Keys(m[1..]);
  }

  /** `d[k].append(x)` on a `defaultdict(list)`: a missing key starts out
      with the empty list. */
  function Append<K(==,!new), T>(m: seq<(K, seq<T>)>, k: K, x: T): (r: seq<(K, seq<T>)>)
    ensures Keys(r) == if k in Keys(m) then Keys(m) else Keys(m) + [k]
    ensures Get(r, k) == Some(Get(m, k).GetOr([]) + [x])
    ensures forall k' :: k' != k ==> Get(r, k') == Get(m, k')
    ensures DistinctKeys(m) ==> DistinctKeys(r)
  {
    Put(m, k, Get(m, k).GetOr([]) + [x])
  }

  /** Looking up the key of a last entry that no earlier entry has finds it. */
  lemma {:induction false} GetLast<K, V>(m: seq<(K, V)>, k: K, v: V)
    requires k !in Keys(m)
    ensures Get(m + [(k, v)], k) == Some(v)
    decreases |m|
  {
    if |m| == 0 {
      assert m + [(k, v)] == [(k, v)];
    } else {
      assert Keys(m) == [m[0].0] + Keys(m[1..]);
      assert (m + [(k, v)])[1..] == m[1..] + [(k, v)];
      GetLast(m[1..], k, v);
    }
  }

  /** Assignment to a key other than the first entry's leaves that entry in front. */
  lemma PutCons<K(!new), V>(m: seq<(K, V)>, k: K, v: V)
    requires |m| > 0 && m[0].0 != k
    ensures Put(m, k, v) == [m[0]] + Put(m[1..], k, v)
  {
  }

  /** A key missing from the map is not the first entry's key, nor among the rest. */
  lemma KeyNotFirst<K, V>(m: seq<(K, V)>, k: K)
    requires |m| > 0 && k !in Keys(m)
    ensures m[0].0 != k && k !in Keys(m[1..])
  {
    assert Keys(m) == [m[0].0] + Keys(m[1..]);
  }

  /** Putting the first entry back in front of the rest and an extra entry. */
  lemma ConsSnoc<T>(s: seq<T>, x: T)
    requires |s| > 0
    ensures [s[0]] + (s[1..] + [x]) == s + [x]
    ensures (s + [x])[0] == s[0] && (s + [x])[1..] == s[1..] + [x]
  {
    assert s == [s[0]] + s[1..];
  }

  /** Assigning to a key that is not present appends an entry. */
  lemma {:induction false} PutNew<K(!new), V>(m: seq<(K, V)>, k: K, v: V)
    requires k !in Keys(m)
    ensures Put(m, k, v) == m + [(k, v)]
    decreases |m|
  {
    if |m| > 0 {
      KeyNotFirst(m, k);
      PutNew(m[1..], k, v);
      PutCons(m, k, v);
      ConsSnoc(m, (k, v));
    }
  }

  /** Assigning to the key of the last entry, when no earlier entry has
      that key, replaces the last entry. */
  lemma {:induction false} PutLast<K(!new), V>(m: seq<(K, V)>, k: K, v: V, w: V)
    requires k !in Keys(m)
    ensures Put(m + [(k, v)], k, w) == m + [(k, w)]
    decreases |m|
  {
    if |m| == 0 {
      assert m + [(k, v)] == [(k, v)];
      assert Put([(k, v)], k, w) == [(k, w)] + [(k, v)][1..];
    } else {
      KeyNotFirst(m, k);
      ConsSnoc(m, (k, v));
      ConsSnoc(m, (k, w));
      PutCons(m + [(k, v)], k, w);
      PutLast(m[1..], k, v, w);
    }
  }
}
