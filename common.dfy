/** Small shared vocabulary: optional values, results with an error, and
    the sequence operations the parser applies to lists it builds. */
module Common {

  datatype Option<+T> = None | Some(value: T)

  /** A value, or the exception the Python code would raise instead. */
  datatype Result<+T, +E> = Ok(value: T) | Err(error: E)

  /** The Python exceptions a pure helper can raise. */
  datatype Exception = IndexError | TypeError

  /** What the parser stores in many dict fields: one string, or the list
      a split produced. */
  datatype Field = One(text: string) | Many(items: seq<string>)

  /** The set of elements of a sequence. */
  function Elems<T>(s: seq<T>): set<T>
  {
    set x | x in s
  }

  /** No element occurs twice. */
  predicate Distinct<T(==)>(s: seq<T>)
  {
    forall i, j :: 0 <= i < j < |s| ==> s[i] != s[j]
  }

  /** Concatenation regroups freely; stated once so that longer proofs do
      not rediscover it. */
  lemma AppendAssoc<T>(a: seq<T>, b: seq<T>, c: seq<T>)
    ensures a + (b + c) == (a + b) + c
  {
  }

  /** A non-empty sequence is its prefix followed by its last element. */
  lemma InitLast<T>(xs: seq<T>)
    requires xs != []
    ensures xs == xs[..|xs| - 1] + [xs[|xs| - 1]]
  {
  }

  /** Concatenation of a list of lists, as `[x for xs in xss for x in xs]`. */
  function Concat<T>(xss: seq<seq<T>>): (r: seq<T>)
    ensures |xss| == 1 ==> r == xss[0]
  {
    if xss == [] then [] else xss[0] + Concat(xss[1..])
  }

  lemma {:induction false} ConcatAppend<T>(xss: seq<seq<T>>, yss: seq<seq<T>>)
    ensures Concat(xss + yss) == Concat(xss) + Concat(yss)
  {
    if xss == [] {
      assert xss + yss == yss;
    } else {
      assert (xss + yss)[1..] == xss[1..] + yss;
      ConcatAppend(xss[1..], yss);
    }
  }

  /** An element belongs to the concatenation iff it belongs to one of the parts. */
  lemma {:induction false} ConcatElems<T>(xss: seq<seq<T>>, x: T)
    ensures x in Concat(xss) <==> exists k :: 0 <= k < |xss| && x in xss[k]
  {
    if xss != [] {
      ConcatElems(xss[1..], x);
      if x in Concat(xss[1..]) {
        var k :| 0 <= k < |xss[1..]| && x in xss[1..][k];
        assert x in xss[k + 1];
      }
      if exists k :: 0 <= k < |xss| && x in xss[k] {
        var k :| 0 <= k < |xss| && x in xss[k];
        if k > 0 {
          assert x in xss[1..][k - 1];
        }
      }
    }
  }

  /** The keys of the elements of a sequence. */
  function KeysOf<T, K>(xs: seq<T>, key: T -> K): set<K>
  {
    set i | 0 <= i < |xs| :: key(xs[i])
  }

  lemma KeysOfAppend<T, K>(xs: seq<T>, x: T, key: T -> K)
    ensures KeysOf(xs + [x], key) == KeysOf(xs, key) + {key(x)}
  {
    var ys := xs + [x];
    assert key(ys[|xs|]) == key(x);
    forall k | k in KeysOf(ys, key) ensures k in KeysOf(xs, key) + {key(x)} {
      var i :| 0 <= i < |ys| && key(ys[i]) == k;
      if i < |xs| { assert ys[i] == xs[i]; }
    }
    forall k | k in KeysOf(xs, key) ensures k in KeysOf(ys, key) {
      var i :| 0 <= i < |xs| && key(xs[i]) == k;
      assert ys[i] == xs[i];
    }
  }

  /** Keep-first deduplication by key: the loops that remember the keys seen
      so far in a set or a dict and append an element only when its key is
      new. Stated over prefixes, the way those loops run. */
  function KeepFirst<T, K(==)>(xs: seq<T>, key: T -> K): seq<T>
  {
    if xs == [] then []
    else
      var kept := KeepFirst(xs[..|xs| - 1], key);
      var x := xs[|xs| - 1];
      if key(x) in KeysOf(kept, key) then kept else kept + [x]
  }

  /** The first index of `xs` whose key is `k`. */
  predicate IsFirstWithKey<T, K(==)>(xs: seq<T>, key: T -> K, i: int)
  {
    0 <= i < |xs| && forall j :: 0 <= j < i ==> key(xs[j]) != key(xs[i])
  }

  /** What keep-first deduplication promises: the same keys, each once, and
      each kept element is the first occurrence of its key, in input order. */
  lemma {:induction false} KeepFirstSpec<T, K>(xs: seq<T>, key: T -> K)
    ensures KeysOf(KeepFirst(xs, key), key) == KeysOf(xs, key)
    ensures forall i, j :: 0 <= i < j < |KeepFirst(xs, key)| ==>
              key(KeepFirst(xs, key)[i]) != key(KeepFirst(xs, key)[j])
    ensures forall i :: 0 <= i < |KeepFirst(xs, key)| ==>
              exists n :: IsFirstWithKey(xs, key, n) && xs[n] == KeepFirst(xs, key)[i]
    ensures |KeepFirst(xs, key)| <= |xs|
  {
    if xs != [] {
      var init := xs[..|xs| - 1];
      var x := xs[|xs| - 1];
      KeepFirstSpec(init, key);
      var kept := KeepFirst(init, key);
      InitLast(xs);
      KeysOfAppend(init, x, key);
      KeysOfAppend(kept, x, key);
      forall i | 0 <= i < |KeepFirst(xs, key)|
        ensures exists n :: IsFirstWithKey(xs, key, n) && xs[n] == KeepFirst(xs, key)[i]
      {
        if i < |kept| {
          var n :| IsFirstWithKey(init, key, n) && init[n] == kept[i];
          assert IsFirstWithKey(xs, key, n) && xs[n] == KeepFirst(xs, key)[i];
        } else {
          assert key(x) !in KeysOf(init, key);
          forall j | 0 <= j < |xs| - 1 ensures key(xs[j]) != key(x) {
            assert key(init[j]) in KeysOf(init, key);
          }
          assert IsFirstWithKey(xs, key, |xs| - 1);
        }
      }
    }
  }

  /** Deduplication by key, as the parser's loops do it: a list of kept
      elements grows while a set remembers the keys already seen. */
  method DedupBy<T, K(==)>(xs: seq<T>, key: T -> K) returns (kept: seq<T>)
    ensures kept == KeepFirst(xs, key)
    ensures KeysOf(kept, key) == KeysOf(xs, key)
    ensures forall i, j :: 0 <= i < j < |kept| ==> key(kept[i]) != key(kept[j])
  {
    var seen: set<K> := {};
    kept := [];
    var i := 0;
    while i < |xs|
      invariant 0 <= i <= |xs|
      invariant kept == KeepFirst(xs[..i], key)
      invariant seen == KeysOf(kept, key)
    {
      assert xs[..i + 1][..i] == xs[..i];
      KeysOfAppend(kept, xs[i], key);
      if key(xs[i]) !in seen {
        seen := seen + {key(xs[i])};
        kept := kept + [xs[i]];
      }
      i := i + 1;
    }
    assert xs[..i] == xs;
    KeepFirstSpec(xs, key);
  }

  /** Deduplication by identity keeps exactly the elements of the input,
      each once. */
  lemma UniqueElems<T>(xs: seq<T>, unique: seq<T>, id: T -> T)
    requires forall a :: id(a) == a
    requires KeysOf(unique, id) == KeysOf(xs, id)
    requires forall i, j :: 0 <= i < j < |unique| ==> id(unique[i]) != id(unique[j])
    ensures Distinct(unique) && Elems(unique) == Elems(xs)
  {
    forall a | a in Elems(xs) ensures a in Elems(unique) {
      var i :| 0 <= i < |xs| && xs[i] == a;
      assert id(xs[i]) in KeysOf(xs, id);
    }
    forall a | a in Elems(unique) ensures a in Elems(xs) {
      var i :| 0 <= i < |unique| && unique[i] == a;
      assert id(unique[i]) in KeysOf(unique, id);
    }
  }

  /** `{key(x): x for x in xs}[k]`: a comprehension keeps the last element
      of each key, so a lookup finds the last element whose key is `k`. */
  function LastWith<T, K(==)>(xs: seq<T>, key: T -> K, k: K): Option<T>
  {
    if xs == [] then None
    else if key(xs[|xs| - 1]) == k then Some(xs[|xs| - 1])
    else LastWith(xs[..|xs| - 1], key, k)
  }

  /** An element is found for `k` iff one has that key, and then it is the
      last such element. */
  lemma {:induction false} LastWithSpec<T, K>(xs: seq<T>, key: T -> K, k: K)
    ensures LastWith(xs, key, k).None? <==> forall i :: 0 <= i < |xs| ==> key(xs[i]) != k
    ensures LastWith(xs, key, k).Some? ==>
              exists n :: 0 <= n < |xs| && xs[n] == LastWith(xs, key, k).value && key(xs[n]) == k
                          && forall j :: n < j < |xs| ==> key(xs[j]) != k
  {
    if xs != [] {
      var pre := xs[..|xs| - 1];
      LastWithSpec(pre, key, k);
      if key(xs[|xs| - 1]) != k && LastWith(pre, key, k).Some? {
        var n :| 0 <= n < |pre| && pre[n] == LastWith(pre, key, k).value && key(pre[n]) == k
                 && forall j :: n < j < |pre| ==> key(pre[j]) != k;
        assert xs[n] == pre[n];
      }
    }
  }

  // ---------------------------------------------------------------------
  // Python dicts, as their items in insertion order
  // ---------------------------------------------------------------------

  /** The keys of a dict, in insertion order. */
  function Keys<K, V>(d: seq<(K, V)>): (ks: seq<K>)
    ensures |ks| == |d| && forall i :: 0 <= i < |d| ==> ks[i] == d[i].0
  {
    if d == [] then [] else [d[0].0] + Keys(d[1..])
  }

  /** `d.get(k)` */
  function Get<K(==), V>(d: seq<(K, V)>, k: K): (r: Option<V>)
    ensures r.None? <==> k !in Keys(d)
  {
    if d == [] then None else if d[0].0 == k then Some(d[0].1) else Get(d[1..], k)
  }

  /** `d[k] = v`: an existing key keeps its place and takes the new value,
      a new key goes last. */
  function Put<K(==), V>(d: seq<(K, V)>, k: K, v: V): seq<(K, V)>
  {
    if d == [] then [(k, v)]
    else if d[0].0 == k then [(k, v)] + d[1..]
    else [d[0]] + Put(d[1..], k, v)
  }

  /** The dict laws of assignment: the key reads back the new value and
      every other key reads as before. */
  lemma {:induction false} PutGet<K, V>(d: seq<(K, V)>, k: K, v: V)
    ensures Get(Put(d, k, v), k) == Some(v)
    ensures forall k' :: k' != k ==> Get(Put(d, k, v), k') == Get(d, k')
  {
    if d != [] && d[0].0 != k {
      PutGet(d[1..], k, v);
      assert Put(d, k, v)[1..] == Put(d[1..], k, v);
    }
  }

  /** The key order changes only by appending a new key, so keys stay
      unique. */
  lemma PutKeys<K, V>(d: seq<(K, V)>, k: K, v: V)
    ensures Keys(Put(d, k, v)) == if k in Keys(d) then Keys(d) else Keys(d) + [k]
    ensures Distinct(Keys(d)) ==> Distinct(Keys(Put(d, k, v)))
  {
    PutKeysOrder(d, k, v);
    if Distinct(Keys(d)) && k !in Keys(d) {
      DistinctSnoc(Keys(d), k);
    }
  }

  lemma {:induction false} PutKeysOrder<K, V>(d: seq<(K, V)>, k: K, v: V)
    ensures Keys(Put(d, k, v)) == if k in Keys(d) then Keys(d) else Keys(d) + [k]
  {
    if d != [] {
      PutKeysOrder(d[1..], k, v);
      assert Keys(d) == [d[0].0] + Keys(d[1..]);
      if d[0].0 != k {
        assert Keys(Put(d, k, v)) == [d[0].0] + Keys(Put(d[1..], k, v));
        if k !in Keys(d[1..]) {
          assert [d[0].0] + (Keys(d[1..]) + [k]) == ([d[0].0] + Keys(d[1..])) + [k];
        }
      } else {
        assert Keys(Put(d, k, v)) == [k] + Keys(d[1..]);
      }
    }
  }

  /** Appending a new element keeps a sequence duplicate-free. */
  lemma DistinctSnoc<T>(s: seq<T>, x: T)
    requires Distinct(s) && x !in s
    ensures Distinct(s + [x])
  {
    var t := s + [x];
    forall i, j | 0 <= i < j < |t| ensures t[i] != t[j] {
      if j == |s| { assert t[i] == s[i]; }
      else { assert t[i] == s[i] && t[j] == s[j]; }
    }
  }

  /** With unique keys, each item is what its key reads. */
  lemma {:induction false} GetAt<K, V>(d: seq<(K, V)>, i: nat)
    requires Distinct(Keys(d)) && i < |d|
    ensures Get(d, d[i].0) == Some(d[i].1)
  {
    if i > 0 {
      assert Keys(d)[0] != Keys(d)[i];
      assert Distinct(Keys(d[1..])) by {
        forall a, b | 0 <= a < b < |d| - 1 ensures Keys(d[1..])[a] != Keys(d[1..])[b] {
          assert Keys(d)[a + 1] != Keys(d)[b + 1];
        }
      }
      GetAt(d[1..], i - 1);
    }
  }

  /** A new key goes last. */
  lemma {:induction false} PutNew<K, V>(d: seq<(K, V)>, k: K, v: V)
    requires k !in Keys(d)
    ensures Put(d, k, v) == d + [(k, v)]
  {
    if d != [] {
      assert Keys(d) == [d[0].0] + Keys(d[1..]);
      PutNew(d[1..], k, v);
      assert d == [d[0]] + d[1..];
    }
  }

  /** Two dicts with the same keys in the same order, unique, that read the
      same everywhere are equal. */
  lemma DictEqual<K, V>(d: seq<(K, V)>, e: seq<(K, V)>)
    requires Keys(d) == Keys(e) && Distinct(Keys(d))
    requires forall k :: Get(d, k) == Get(e, k)
    ensures d == e
  {
    forall n | 0 <= n < |d| ensures d[n] == e[n] {
      assert Keys(d)[n] == Keys(e)[n];
      GetAt(d, n);
      GetAt(e, n);
    }
  }
}
