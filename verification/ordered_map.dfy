/** PHP arrays and JS objects with string keys keep insertion order. They are
    modelled as association lists: the first pair with a key is its entry,
    and writing an existing key keeps its position. */
module OrderedMap {
  import opened Options

  function Keys<K, V>(m: seq<(K, V)>): (ks: seq<K>)
    ensures |ks| == |m|
    ensures forall i :: 0 <= i < |m| ==> ks[i] == m[i].0
  {
    seq(|m|, i requires 0 <= i < |m| => m[i].0)
  }

  /** `$m[$k] ?? null`: the value of the first pair whose key is `k`. */
  function Get<K(==), V>(m: seq<(K, V)>, k: K): (r: Option<V>)
    ensures r.None? <==> k !in Keys(m)
    ensures r.Some? ==> (k, r.value) in m
  {
    if m == [] then None
    else if m[0].0 == k then Some(m[0].1)
    else Get(m[1..], k)
  }

  /** `$m[$k] = $v`: replaces the value in place when `k` is present,
      appends otherwise. */
  function Put<K(==), V>(m: seq<(K, V)>, k: K, v: V): (r: seq<(K, V)>)
    ensures k in Keys(m) ==> Keys(r) == Keys(m)
    ensures k !in Keys(m) ==> Keys(r) == Keys(m) + [k]
  {
    if m == [] then [(k, v)]
    else if m[0].0 == k then
      ConsFacts((k, v), m[1..]);
      ConsFacts(m[0], m[1..]);
      [(k, v)] + m[1..]
    else
      var rest := Put(m[1..], k, v);
      ConsFacts(m[0], rest);
      ConsFacts(m[0], m[1..]);
      [m[0]] + rest
  }

  /** After `Put(m, k, v)` the key `k` reads `v` and every other key reads
      what it read before. */
  lemma {:induction false} PutGet<K, V>(m: seq<(K, V)>, k: K, v: V, k': K)
    ensures Get(Put(m, k, v), k') == if k' == k then Some(v) else Get(m, k')
  {
    if m == [] {
    } else if m[0].0 == k {
      ConsFacts((k, v), m[1..]);
    } else {
      PutGet(m[1..], k, v, k');
      ConsFacts(m[0], Put(m[1..], k, v));
    }
  }

  /** How `Get` and `Keys` see a pair put in front of a list. */
  lemma ConsFacts<K, V>(p: (K, V), m: seq<(K, V)>)
    ensures ([p] + m)[1..] == m
    ensures Keys([p] + m) == [p.0] + Keys(m)
    ensures [p] + m != []
  {
    ConsTail(p, m);
    ConsKeys(p, m);
  }

  lemma ConsTail<T>(x: T, m: seq<T>)
    ensures ([x] + m)[1..] == m
  {
  }

  lemma ConsKeys<K, V>(p: (K, V), m: seq<(K, V)>)
    ensures Keys([p] + m) == [p.0] + Keys(m)
  {
    var ks, km := Keys([p] + m), Keys(m);
    assert |ks| == |km| + 1;
    forall i | 0 <= i < |ks| ensures ks[i] == ([p.0] + km)[i] {
      if i > 0 {
        assert ([p] + m)[i] == m[i - 1];
      }
    }
  }

  /** No key occurs twice, as in every PHP array. */
  predicate DistinctKeys<K(==), V>(m: seq<(K, V)>) {
    forall i, j :: 0 <= i < j < |m| ==> m[i].0 != m[j].0
  }

  /** The position of the first occurrence of `x` in `s`. */
  function IndexOf<T(==)>(s: seq<T>, x: T): (i: nat)
    requires x in s
    ensures i < |s| && s[i] == x
    ensures forall j :: 0 <= j < i ==> s[j] != x
  {
    if s[0] == x then 0 else 1 + IndexOf(s[1..], x)
  }

  /** The elements of `s` in order, each kept at its first occurrence
      (`array_values(array_unique($s))`): every element once, in the order
      of first appearance. */
  function Dedup<T(==,!new)>(s: seq<T>): (r: seq<T>)
    ensures forall x :: x in r <==> x in s
    ensures forall i, j :: 0 <= i < j < |r| ==> r[i] != r[j]
    ensures forall i, j :: 0 <= i < j < |r| ==> IndexOf(s, r[i]) < IndexOf(s, r[j])
    ensures |r| <= |s|
  {
    DedupFromInOrder(s, []);
    var r := DedupFrom(s, []);
    assert forall i, j :: 0 <= i < j < |r| ==> IndexOf(s, r[i]) < IndexOf(s, r[j]);
    r
  }

  /** `Dedup` with the elements already emitted in `seen`. */
  function DedupFrom<T(==,!new)>(s: seq<T>, seen: seq<T>): (r: seq<T>)
    ensures forall x :: x in r <==> x in s && x !in seen
    ensures forall i, j :: 0 <= i < j < |r| ==> r[i] != r[j]
    ensures |r| <= |s|
  {
    if s == [] then []
    else if s[0] in seen then DedupFrom(s[1..], seen)
    else
      var rest := DedupFrom(s[1..], seen + [s[0]]);
      assert s[0] !in rest;
      [s[0]] + rest
  }

  /** The elements `DedupFrom` emits come in the order of their first
      occurrence in `s`. */
  lemma {:induction false} DedupFromInOrder<T(!new)>(s: seq<T>, seen: seq<T>)
    ensures forall i, j :: 0 <= i < j < |DedupFrom(s, seen)| ==>
              IndexOf(s, DedupFrom(s, seen)[i]) < IndexOf(s, DedupFrom(s, seen)[j])
  {
    if s != [] {
      var seen' := if s[0] in seen then seen else seen + [s[0]];
      var rest := DedupFrom(s[1..], seen');
      DedupFromInOrder(s[1..], seen');
      assert s[0] in seen';
      IndexOfTail(s, rest);
      var r := DedupFrom(s, seen);
      if s[0] in seen {
        assert r == rest;
      } else {
        assert r == [s[0]] + rest;
        forall i, j | 0 <= i < j < |r| ensures IndexOf(s, r[i]) < IndexOf(s, r[j]) {
          assert r[j] == rest[j - 1];
          if i > 0 {
            assert r[i] == rest[i - 1];
            assert IndexOf(s[1..], rest[i - 1]) < IndexOf(s[1..], rest[j - 1]);
          }
        }
      }
    }
  }

  /** Past the first element, positions in `s` are one more than in its
      tail. */
  lemma IndexOfTail<T>(s: seq<T>, xs: seq<T>)
    requires s != [] && forall x :: x in xs ==> x in s[1..] && x != s[0]
    ensures forall i :: 0 <= i < |xs| ==>
              xs[i] in s[1..] && xs[i] in s && IndexOf(s, xs[i]) == 1 + IndexOf(s[1..], xs[i])
  {
    forall i | 0 <= i < |xs|
      ensures xs[i] in s[1..] && xs[i] in s && IndexOf(s, xs[i]) == 1 + IndexOf(s[1..], xs[i])
    {
      assert xs[i] in xs;
    }
  }

  /** Putting one key leaves the presence of every other key as it was. */
  lemma PutKeysOther<K, V>(m: seq<(K, V)>, k: K, v: V, other: K)
    requires other != k
    ensures other in Keys(Put(m, k, v)) <==> other in Keys(m)
  {
  }
}
