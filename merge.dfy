/** `merge_dicts` of `load_data`: the documents of all loaders are sorted
    by `_id` (a stable sort in code-point order), grouped into runs of equal
    `_id`, and each run is merged key by key into one document. A key seen
    before keeps its first value unless its name contains "association",
    which takes the latest value. */
module Merge {

  import opened Common
  import opened Strings

  /** A document: its `_id` and its other keys with their values, in
      insertion order. Every loader puts `_id` first, so the merged
      document's `_id` is its group's. */
  datatype Doc<V> = Doc(id: string, fields: seq<(string, V)>)

  // ---------------------------------------------------------------------
  // Python's order on str: code point by code point, a proper prefix first
  // ---------------------------------------------------------------------

  predicate Less(a: string, b: string)
    decreases |a|
  {
    if a == [] then b != []
    else b != [] && (a[0] < b[0] || (a[0] == b[0] && Less(a[1..], b[1..])))
  }

  lemma {:induction false} LessIrreflexive(a: string)
    ensures !Less(a, a)
    decreases |a|
  {
    if a != [] {
      LessIrreflexive(a[1..]);
    }
  }

  lemma {:induction false} LessTransitive(a: string, b: string, c: string)
    requires Less(a, b) && Less(b, c)
    ensures Less(a, c)
    decreases |a|
  {
    if a != [] && a[0] == b[0] && b[0] == c[0] {
      LessTransitive(a[1..], b[1..], c[1..]);
    }
  }

  lemma {:induction false} LessTotal(a: string, b: string)
    ensures a == b || Less(a, b) || Less(b, a)
    decreases |a|
  {
    if a != [] && b != [] && a[0] == b[0] {
      LessTotal(a[1..], b[1..]);
      if a[1..] == b[1..] {
        assert a == [a[0]] + a[1..] && b == [b[0]] + b[1..];
      }
    }
  }

  /** `a < b <= c` gives `a < c`. */
  lemma LessLessEq(a: string, b: string, c: string)
    requires Less(a, b) && !Less(c, b)
    ensures Less(a, c)
  {
    LessTotal(b, c);
    if b != c {
      LessTransitive(a, b, c);
    }
  }

  // ---------------------------------------------------------------------
  // sorted(dicts, key=itemgetter("_id")): a stable sort
  // ---------------------------------------------------------------------

  /** Insert after every document whose `_id` is not greater. */
  function Insert<V>(d: Doc<V>, s: seq<Doc<V>>): (r: seq<Doc<V>>)
    ensures multiset(r) == multiset(s) + multiset{d}
  {
    if s == [] then [d]
    else if Less(d.id, s[0].id) then [d] + s
    else
      assert s == [s[0]] + s[1..];
      [s[0]] + Insert(d, s[1..])
  }

  /** Insertion sort: each document in turn goes after the equal ones
      already placed, which keeps documents of equal `_id` in input order. */
  function SortById<V>(docs: seq<Doc<V>>): (r: seq<Doc<V>>)
    ensures multiset(r) == multiset(docs)
  {
    if docs == [] then []
    else
      assert docs == docs[..|docs| - 1] + [docs[|docs| - 1]];
      Insert(docs[|docs| - 1], SortById(docs[..|docs| - 1]))
  }

  predicate SortedById<V>(s: seq<Doc<V>>)
  {
    forall i, j :: 0 <= i < j < |s| ==> !Less(s[j].id, s[i].id)
  }

  /** The documents with `_id` `t`, in order. */
  function ById<V>(docs: seq<Doc<V>>, t: string): seq<Doc<V>>
  {
    if docs == [] then []
    else (if docs[0].id == t then [docs[0]] else []) + ById(docs[1..], t)
  }

  lemma {:induction false} ByIdNone<V>(docs: seq<Doc<V>>, t: string)
    requires forall j :: 0 <= j < |docs| ==> docs[j].id != t
    ensures ById(docs, t) == []
  {
    if docs != [] {
      ByIdNone(docs[1..], t);
    }
  }

  lemma {:induction false} ByIdSnoc<V>(docs: seq<Doc<V>>, d: Doc<V>, t: string)
    ensures ById(docs + [d], t) == ById(docs, t) + (if d.id == t then [d] else [])
  {
    if docs != [] {
      assert (docs + [d])[0] == docs[0];
      assert (docs + [d])[1..] == docs[1..] + [d];
      ByIdSnoc(docs[1..], d, t);
      AppendAssoc(if docs[0].id == t then [docs[0]] else [], ById(docs[1..], t), if d.id == t then [d] else []);
    } else {
      assert (docs + [d])[1..] == [];
    }
  }

  lemma {:induction false} InsertSorted<V>(d: Doc<V>, s: seq<Doc<V>>)
    requires SortedById(s)
    ensures SortedById(Insert(d, s))
  {
    if s != [] {
      if Less(d.id, s[0].id) {
        forall j | 0 <= j < |s| ensures !Less(s[j].id, d.id) {
          if Less(s[j].id, d.id) {
            LessTransitive(s[j].id, d.id, s[0].id);
            if j == 0 { LessIrreflexive(s[0].id); }
          }
        }
      } else {
        InsertSorted(d, s[1..]);
        var r := Insert(d, s[1..]);
        forall x | x in r ensures !Less(x.id, s[0].id) {
          assert x in multiset(r);
          if x != d {
            assert x in multiset(s[1..]);
            var j :| 0 <= j < |s[1..]| && s[1..][j] == x;
            assert s[j + 1] == x;
          }
        }
      }
    }
  }

  lemma {:induction false} ByIdInsert<V>(d: Doc<V>, s: seq<Doc<V>>, t: string)
    requires SortedById(s)
    ensures ById(Insert(d, s), t) == ById(s, t) + (if d.id == t then [d] else [])
  {
    if s == [] {
    } else if Less(d.id, s[0].id) {
      ByIdInsertFront(d, s, t);
    } else {
      assert SortedById(s[1..]) by {
        forall i, j | 0 <= i < j < |s[1..]| ensures !Less(s[1..][j].id, s[1..][i].id) {
          assert s[1..][j] == s[j + 1] && s[1..][i] == s[i + 1];
        }
      }
      ByIdInsert(d, s[1..], t);
      ByIdInsertPast(d, s, t);
    }
  }

  /** Inserted before a greater `_id`, the document has no equals after it. */
  lemma ByIdInsertFront<V>(d: Doc<V>, s: seq<Doc<V>>, t: string)
    requires SortedById(s) && s != [] && Less(d.id, s[0].id)
    ensures ById(Insert(d, s), t) == ById(s, t) + (if d.id == t then [d] else [])
  {
    assert Insert(d, s) == [d] + s;
    assert ([d] + s)[1..] == s;
    assert ById([d] + s, t) == (if d.id == t then [d] else []) + ById(s, t);
    if d.id == t {
      forall j | 0 <= j < |s| ensures s[j].id != t {
        if j == 0 { LessIrreflexive(d.id); } else { assert !Less(s[j].id, s[0].id); }
      }
      ByIdNone(s, t);
    }
  }

  /** Inserted past the first document, the step of the induction. */
  lemma ByIdInsertPast<V>(d: Doc<V>, s: seq<Doc<V>>, t: string)
    requires s != [] && !Less(d.id, s[0].id)
    requires ById(Insert(d, s[1..]), t) == ById(s[1..], t) + (if d.id == t then [d] else [])
    ensures ById(Insert(d, s), t) == ById(s, t) + (if d.id == t then [d] else [])
  {
    var r := Insert(d, s);
    var h := if s[0].id == t then [s[0]] else [];
    var tail := if d.id == t then [d] else [];
    assert r == [s[0]] + Insert(d, s[1..]);
    assert r[0] == s[0] && r[1..] == Insert(d, s[1..]);
    assert ById(r, t) == h + (ById(s[1..], t) + tail);
    assert ById(s, t) == h + ById(s[1..], t);
    AppendAssoc(h, ById(s[1..], t), tail);
  }

  /** The sort orders by `_id`, keeps every document, and keeps the
      documents of each `_id` in input order. */
  lemma SortByIdSpec<V>(docs: seq<Doc<V>>)
    ensures SortedById(SortById(docs))
    ensures forall t :: ById(SortById(docs), t) == ById(docs, t)
  {
    SortByIdSorted(docs);
    forall t ensures ById(SortById(docs), t) == ById(docs, t) {
      SortByIdGroup(docs, t);
    }
  }

  lemma {:induction false} SortByIdSorted<V>(docs: seq<Doc<V>>)
    ensures SortedById(SortById(docs))
  {
    if docs != [] {
      var init := docs[..|docs| - 1];
      SortByIdSorted(init);
      InsertSorted(docs[|docs| - 1], SortById(init));
    }
  }

  lemma {:induction false} SortByIdGroup<V>(docs: seq<Doc<V>>, t: string)
    ensures ById(SortById(docs), t) == ById(docs, t)
  {
    if docs != [] {
      var init := docs[..|docs| - 1];
      var d := docs[|docs| - 1];
      assert SortById(docs) == Insert(d, SortById(init));
      SortByIdSorted(init);
      SortByIdGroup(init, t);
      ByIdInsert(d, SortById(init), t);
      InitLast(docs);
      ByIdSnoc(init, d, t);
    }
  }

  lemma {:induction false} ByIdAppend<V>(a: seq<Doc<V>>, b: seq<Doc<V>>, t: string)
    ensures ById(a + b, t) == ById(a, t) + ById(b, t)
  {
    if a != [] {
      assert (a + b)[0] == a[0];
      assert (a + b)[1..] == a[1..] + b;
      ByIdAppend(a[1..], b, t);
      AppendAssoc(if a[0].id == t then [a[0]] else [], ById(a[1..], t), ById(b, t));
    } else {
      assert a + b == b;
    }
  }

  lemma {:induction false} ByIdAll<V>(run: seq<Doc<V>>, t: string)
    requires forall j :: 0 <= j < |run| ==> run[j].id == t
    ensures ById(run, t) == run
  {
    if run != [] {
      ByIdAll(run[1..], t);
      assert run == [run[0]] + run[1..];
    }
  }

  // ---------------------------------------------------------------------
  // Merging the keys of a group
  // ---------------------------------------------------------------------

  /** `"association" in key` */
  predicate IsAssociationKey(k: string)
  {
    IsSubstring("association", k)
  }

  /** One step of the innermost loop: a new key is added; a key seen
      before takes the new value only when it is an association key. */
  function MergeField<V>(m: seq<(string, V)>, item: (string, V)): seq<(string, V)>
  {
    if item.0 in Keys(m) then
      if IsAssociationKey(item.0) then Put(m, item.0, item.1) else m
    else Put(m, item.0, item.1)
  }

  /** The merged document after the given items, in order. */
  function MergeInto<V>(m: seq<(string, V)>, items: seq<(string, V)>): seq<(string, V)>
  {
    if items == [] then m
    else MergeField(MergeInto(m, items[..|items| - 1]), items[|items| - 1])
  }

  lemma {:induction false} MergeIntoAppend<V>(m: seq<(string, V)>, a: seq<(string, V)>, b: seq<(string, V)>)
    ensures MergeInto(m, a + b) == MergeInto(MergeInto(m, a), b)
    decreases |b|
  {
    if b == [] {
      assert a + b == a;
    } else {
      var b' := b[..|b| - 1];
      assert (a + b)[..|a + b| - 1] == a + b';
      MergeIntoAppend(m, a, b');
    }
  }

  /** `n` is the first item with key `k`. */
  predicate IsFirstKey<V>(items: seq<(string, V)>, k: string, n: int)
  {
    0 <= n < |items| && items[n].0 == k && forall j :: 0 <= j < n ==> items[j].0 != k
  }

  /** `n` is the last item with key `k`. */
  predicate IsLastKey<V>(items: seq<(string, V)>, k: string, n: int)
  {
    0 <= n < |items| && items[n].0 == k && forall j :: n < j < |items| ==> items[j].0 != k
  }

  /** The keys of the items. */
  function ItemKeys<V>(items: seq<(string, V)>): set<string>
  {
    set n | 0 <= n < |items| :: items[n].0
  }

  lemma ItemKeysSnoc<V>(items: seq<(string, V)>, x: (string, V))
    ensures ItemKeys(items + [x]) == ItemKeys(items) + {x.0}
  {
    var ys := items + [x];
    assert ys[|items|].0 == x.0;
    forall k | k in ItemKeys(ys) ensures k in ItemKeys(items) + {x.0} {
      var n :| 0 <= n < |ys| && ys[n].0 == k;
      if n < |items| { assert items[n] == ys[n]; }
    }
    forall k | k in ItemKeys(items) ensures k in ItemKeys(ys) {
      var n :| 0 <= n < |items| && items[n].0 == k;
      assert ys[n] == items[n];
    }
  }

  /** One merge step keeps the keys unique and adds the item's key. */
  lemma MergeFieldKeys<V>(m: seq<(string, V)>, item: (string, V))
    requires Distinct(Keys(m))
    ensures Distinct(Keys(MergeField(m, item)))
    ensures Elems(Keys(MergeField(m, item))) == Elems(Keys(m)) + {item.0}
  {
    PutKeys(m, item.0, item.1);
    if item.0 !in Keys(m) {
      assert Elems(Keys(m) + [item.0]) == Elems(Keys(m)) + {item.0};
    }
  }

  /** The merged document has each key of the items once, and only those. */
  lemma {:induction false} MergedKeys<V>(items: seq<(string, V)>)
    ensures Distinct(Keys(MergeInto([], items)))
    ensures Elems(Keys(MergeInto([], items))) == ItemKeys(items)
  {
    if items != [] {
      var pre := items[..|items| - 1];
      var x := items[|items| - 1];
      var m := MergeInto([], pre);
      assert MergeInto([], items) == MergeField(m, x);
      MergedKeys(pre);
      MergeFieldKeys(m, x);
      InitLast(items);
      ItemKeysSnoc(pre, x);
      assert ItemKeys(items) == ItemKeys(pre) + {x.0};
      assert Elems(Keys(MergeInto([], items))) == Elems(Keys(m)) + {x.0};
    }
  }

  /** What a merged key reads: the value of its first item, or of its last
      item for an association key. */
  lemma {:induction false} MergedValue<V>(items: seq<(string, V)>, k: string, n: int)
    requires if IsAssociationKey(k) then IsLastKey(items, k, n) else IsFirstKey(items, k, n)
    ensures Get(MergeInto([], items), k) == Some(items[n].1)
    decreases |items|, 1
  {
    var x := items[|items| - 1];
    if x.0 != k {
      MergedOtherLast(items, k, n);
    } else if n < |items| - 1 {
      MergedFirstEarlier(items, k, n);
    } else {
      MergedAtLast(items, k);
    }
  }

  /** The last item has another key: the merged value was set earlier. */
  lemma {:induction false} MergedOtherLast<V>(items: seq<(string, V)>, k: string, n: int)
    requires if IsAssociationKey(k) then IsLastKey(items, k, n) else IsFirstKey(items, k, n)
    requires items[|items| - 1].0 != k
    ensures Get(MergeInto([], items), k) == Some(items[n].1)
    decreases |items|, 0
  {
    var pre := items[..|items| - 1];
    var x := items[|items| - 1];
    var m := MergeInto([], pre);
    assert MergeInto([], items) == MergeField(m, x);
    assert Get(MergeField(m, x), k) == Get(m, k) by {
      PutGet(m, x.0, x.1);
    }
    assert 0 <= n < |items| && items[n].0 == k by {
      if IsAssociationKey(k) { assert IsLastKey(items, k, n); } else { assert IsFirstKey(items, k, n); }
    }
    assert n != |items| - 1;
    assert n < |pre| && pre[n] == items[n];
    if IsAssociationKey(k) {
      assert IsLastKey(pre, k, n);
    } else {
      assert IsFirstKey(pre, k, n);
    }
    MergedValue(pre, k, n);
  }

  /** The chosen item is the last one: it set the merged value, either as a
      new key or as an association key. */
  lemma MergedAtLast<V>(items: seq<(string, V)>, k: string)
    requires items != [] && items[|items| - 1].0 == k
    requires !IsAssociationKey(k) ==> IsFirstKey(items, k, |items| - 1)
    ensures Get(MergeInto([], items), k) == Some(items[|items| - 1].1)
  {
    var pre := items[..|items| - 1];
    var x := items[|items| - 1];
    var m := MergeInto([], pre);
    PutGet(m, x.0, x.1);
    if !IsAssociationKey(k) {
      MergedKeys(pre);
      assert k !in ItemKeys(pre);
      assert k !in Elems(Keys(m));
    }
  }

  /** A first item before the last one: the merged value was set then and
      the last item leaves it. */
  lemma {:induction false} MergedFirstEarlier<V>(items: seq<(string, V)>, k: string, n: int)
    requires !IsAssociationKey(k) && IsFirstKey(items, k, n) && n < |items| - 1
    requires items[|items| - 1].0 == k
    ensures Get(MergeInto([], items), k) == Some(items[n].1)
    decreases |items|, 0
  {
    var pre := items[..|items| - 1];
    var m := MergeInto([], pre);
    assert IsFirstKey(pre, k, n);
    MergedKeys(pre);
    assert k in ItemKeys(pre);
    assert k in Elems(Keys(m));
    MergedValue(pre, k, n);
  }

  // ---------------------------------------------------------------------
  // groupby over the sorted documents
  // ---------------------------------------------------------------------

  /** The end of the run of `_id` `t` that starts at `i`. */
  function RunEnd<V>(s: seq<Doc<V>>, i: nat, t: string): (e: nat)
    requires i <= |s|
    ensures i <= e <= |s|
    ensures forall n :: i <= n < e ==> s[n].id == t
    ensures e == |s| || s[e].id != t
    decreases |s| - i
  {
    if i < |s| && s[i].id == t then RunEnd(s, i + 1, t) else i
  }

  /** The items of the documents, one document after the other. */
  function Fields<V>(ds: seq<Doc<V>>): seq<(string, V)>
  {
    if ds == [] then [] else Fields(ds[..|ds| - 1]) + ds[|ds| - 1].fields
  }

  /** The merged documents of the runs from `i` on, one per run. */
  function MergeFrom<V>(s: seq<Doc<V>>, i: nat): seq<Doc<V>>
    requires i <= |s|
    decreases |s| - i
  {
    if i == |s| then []
    else
      var e := RunEnd(s, i, s[i].id);
      [Doc(s[i].id, MergeInto([], Fields(s[i..e])))] + MergeFrom(s, e)
  }

  /** The `_id`s of some documents. */
  function IdSet<V>(ds: seq<Doc<V>>, from: nat): set<string>
  {
    set n | from <= n < |ds| :: ds[n].id
  }

  /** Every `_id` after a run of sorted documents is greater than the run's. */
  lemma RunBelow<V>(s: seq<Doc<V>>, i: nat)
    requires SortedById(s) && i < |s|
    ensures var e := RunEnd(s, i, s[i].id);
      e > i && forall n :: e <= n < |s| ==> Less(s[i].id, s[n].id)
  {
    var t0 := s[i].id;
    var e := RunEnd(s, i, t0);
    forall n | e <= n < |s| ensures Less(t0, s[n].id) {
      assert !Less(s[e].id, s[e - 1].id);
      LessTotal(t0, s[e].id);
      if n == e { LessIrreflexive(s[e].id); }
      LessLessEq(t0, s[e].id, s[n].id);
    }
  }

  /** The merged documents' `_id`s ascend strictly and are exactly those of
      the documents. */
  lemma MergeFromIds<V>(s: seq<Doc<V>>, i: nat)
    requires SortedById(s) && i <= |s|
    ensures var out := MergeFrom(s, i);
      && (forall k, l :: 0 <= k < l < |out| ==> Less(out[k].id, out[l].id))
      && IdSet(out, 0) == IdSet(s, i)
  {
    MergeFromIdSet(s, i);
    MergeFromSorted(s, i);
  }

  /** The merged documents carry exactly the `_id`s of the documents. */
  lemma {:induction false} MergeFromIdSet<V>(s: seq<Doc<V>>, i: nat)
    requires SortedById(s) && i <= |s|
    ensures IdSet(MergeFrom(s, i), 0) == IdSet(s, i)
    decreases |s| - i
  {
    if i < |s| {
      var t0 := s[i].id;
      var e := RunEnd(s, i, t0);
      var rest := MergeFrom(s, e);
      var out := MergeFrom(s, i);
      MergeFromIdSet(s, e);
      RunBelow(s, i);
      assert out == [Doc(t0, MergeInto([], Fields(s[i..e])))] + rest;
      IdSetCons(Doc(t0, MergeInto([], Fields(s[i..e]))), rest);
      IdSetRun(s, i, e);
    }
  }

  lemma IdSetCons<V>(d: Doc<V>, rest: seq<Doc<V>>)
    ensures IdSet([d] + rest, 0) == {d.id} + IdSet(rest, 0)
  {
    var out := [d] + rest;
    forall x | x in IdSet(out, 0) ensures x in {d.id} + IdSet(rest, 0) {
      var k :| 0 <= k < |out| && out[k].id == x;
      if k > 0 { assert out[k] == rest[k - 1]; }
    }
    forall x | x in IdSet(rest, 0) ensures x in IdSet(out, 0) {
      var k :| 0 <= k < |rest| && rest[k].id == x;
      assert out[k + 1] == rest[k];
    }
    assert out[0].id == d.id;
  }

  lemma IdSetRun<V>(s: seq<Doc<V>>, i: nat, e: nat)
    requires i < e <= |s| && forall n :: i <= n < e ==> s[n].id == s[i].id
    ensures IdSet(s, i) == {s[i].id} + IdSet(s, e)
  {
    forall x | x in IdSet(s, i) ensures x in {s[i].id} + IdSet(s, e) {
      var n :| i <= n < |s| && s[n].id == x;
    }
  }

  /** The merged documents' `_id`s ascend strictly. */
  lemma {:induction false} MergeFromSorted<V>(s: seq<Doc<V>>, i: nat)
    requires SortedById(s) && i <= |s|
    ensures var out := MergeFrom(s, i);
      forall k, l :: 0 <= k < l < |out| ==> Less(out[k].id, out[l].id)
    decreases |s| - i
  {
    if i < |s| {
      var t0 := s[i].id;
      var e := RunEnd(s, i, t0);
      var rest := MergeFrom(s, e);
      var out := MergeFrom(s, i);
      MergeFromSorted(s, e);
      MergeFromIdSet(s, e);
      RunBelow(s, i);
      assert out == [Doc(t0, MergeInto([], Fields(s[i..e])))] + rest;
      forall k, l | 0 <= k < l < |out| ensures Less(out[k].id, out[l].id) {
        assert out[l] == rest[l - 1];
        assert out[l].id in IdSet(rest, 0);
        if k > 0 {
          assert out[k] == rest[k - 1];
        }
      }
    }
  }

  /** Each merged document merges all the documents of its `_id` from `i`
      on, in order. */
  lemma {:induction false} MergeFromFields<V>(s: seq<Doc<V>>, i: nat)
    requires SortedById(s) && i <= |s|
    ensures var out := MergeFrom(s, i);
      forall k :: 0 <= k < |out| ==> out[k].fields == MergeInto([], Fields(ById(s[i..], out[k].id)))
    decreases |s| - i
  {
    if i < |s| {
      var t0 := s[i].id;
      var e := RunEnd(s, i, t0);
      var rest := MergeFrom(s, e);
      var out := MergeFrom(s, i);
      MergeFromFields(s, e);
      MergeFromIds(s, e);
      RunBelow(s, i);
      assert out == [Doc(t0, MergeInto([], Fields(s[i..e])))] + rest;
      assert s[i..] == s[i..e] + s[e..];
      forall k | 0 <= k < |out| ensures out[k].fields == MergeInto([], Fields(ById(s[i..], out[k].id))) {
        if k == 0 {
          RunOwnId(s, i);
        } else {
          assert out[k] == rest[k - 1];
          assert out[k].id in IdSet(s, e);
          RunOtherId(s, i, out[k].id);
        }
      }
    }
  }

  /** The documents of a run's own `_id` from its start are the run. */
  lemma RunOwnId<V>(s: seq<Doc<V>>, i: nat)
    requires SortedById(s) && i < |s|
    ensures ById(s[i..], s[i].id) == s[i..RunEnd(s, i, s[i].id)]
  {
    var t0 := s[i].id;
    var e := RunEnd(s, i, t0);
    RunBelow(s, i);
    assert s[i..] == s[i..e] + s[e..];
    ByIdAppend(s[i..e], s[e..], t0);
    ByIdAll(s[i..e], t0);
    forall j | 0 <= j < |s[e..]| ensures s[e..][j].id != t0 {
      assert s[e..][j] == s[e + j];
      assert Less(t0, s[e + j].id);
      LessIrreflexive(t0);
    }
    ByIdNone(s[e..], t0);
    assert ById(s[i..], t0) == s[i..e] + [];
    assert s[i..e] + [] == s[i..e];
  }

  /** The documents of a later `_id` from a run's start are those after the
      run. */
  lemma RunOtherId<V>(s: seq<Doc<V>>, i: nat, t: string)
    requires SortedById(s) && i < |s|
    requires t in IdSet(s, RunEnd(s, i, s[i].id))
    ensures ById(s[i..], t) == ById(s[RunEnd(s, i, s[i].id)..], t)
  {
    var t0 := s[i].id;
    var e := RunEnd(s, i, t0);
    RunBelow(s, i);
    assert s[i..] == s[i..e] + s[e..];
    ByIdAppend(s[i..e], s[e..], t);
    var n :| e <= n < |s| && s[n].id == t;
    assert Less(t0, t);
    LessIrreflexive(t0);
    ByIdNone(s[i..e], t);
    assert [] + ById(s[e..], t) == ById(s[e..], t);
  }

  // ---------------------------------------------------------------------
  // merge_dicts
  // ---------------------------------------------------------------------

  /** `merge_dicts`: sort, then for each run of equal `_id` build the merged
      document key by key and record it under its `_id`. */
  method MergeDicts<V>(docs: seq<Doc<V>>) returns (merged: seq<Doc<V>>)
    ensures merged == MergeFrom(SortById(docs), 0)
  {
    var sorted := SortById(docs);
    merged := [];
    var i := 0;
    while i < |sorted|
      invariant 0 <= i <= |sorted|
      invariant merged + MergeFrom(sorted, i) == MergeFrom(sorted, 0)
      decreases |sorted| - i
    {
      var id := sorted[i].id;
      var j, mergedDoc := MergeGroup(sorted, i);
      merged := merged + [Doc(id, mergedDoc)];
      i := j;
    }
  }

  /** The loop over one group of `groupby`: the documents from `i` while
      their `_id` is that of document `i`. */
  method MergeGroup<V>(sorted: seq<Doc<V>>, i: nat) returns (j: nat, mergedDoc: seq<(string, V)>)
    requires i < |sorted|
    ensures j == RunEnd(sorted, i, sorted[i].id)
    ensures mergedDoc == MergeInto([], Fields(sorted[i..j]))
  {
    var id := sorted[i].id;
    mergedDoc := [];
    j := i;
    while j < |sorted| && sorted[j].id == id
      invariant i <= j <= |sorted|
      invariant RunEnd(sorted, j, id) == RunEnd(sorted, i, id)
      invariant mergedDoc == MergeInto([], Fields(sorted[i..j]))
      decreases |sorted| - j
    {
      mergedDoc := MergeDoc(mergedDoc, sorted[j].fields);
      MergeIntoAppend([], Fields(sorted[i..j]), sorted[j].fields);
      FieldsStep(sorted, i, j);
      j := j + 1;
    }
  }

  /** One more document of a run adds its items. */
  lemma FieldsStep<V>(s: seq<Doc<V>>, i: nat, j: nat)
    requires i <= j < |s|
    ensures Fields(s[i..j + 1]) == Fields(s[i..j]) + s[j].fields
  {
    assert s[i..j + 1][..j - i] == s[i..j];
  }

  /** The loop over the items of one document. */
  method MergeDoc<V>(m: seq<(string, V)>, fields: seq<(string, V)>) returns (mergedDoc: seq<(string, V)>)
    ensures mergedDoc == MergeInto(m, fields)
  {
    mergedDoc := m;
    for k := 0 to |fields|
      invariant mergedDoc == MergeInto(m, fields[..k])
    {
      var (key, value) := fields[k];
      assert fields[..k + 1][..k] == fields[..k];
      if key in Keys(mergedDoc) {
        if IsAssociationKey(key) {
          mergedDoc := Put(mergedDoc, key, value);
        }
      } else {
        mergedDoc := Put(mergedDoc, key, value);
      }
    }
    assert fields[..|fields|] == fields;
  }

  /** What `merge_dicts` promises: one document per distinct `_id`, in
      ascending `_id` order, each merging every document of its `_id` in
      input order. */
  lemma MergeDictsSpec<V>(docs: seq<Doc<V>>)
    ensures var out := MergeFrom(SortById(docs), 0);
      && (forall k, l :: 0 <= k < l < |out| ==> Less(out[k].id, out[l].id))
      && IdSet(out, 0) == IdSet(docs, 0)
      && (forall k :: 0 <= k < |out| ==> out[k].fields == MergeInto([], Fields(ById(docs, out[k].id))))
  {
    var s := SortById(docs);
    SortByIdSpec(docs);
    MergeFromIds(s, 0);
    MergeFromFields(s, 0);
    assert s[0..] == s;
    assert IdSet(s, 0) == IdSet(docs, 0) by {
      forall x | x in IdSet(docs, 0) ensures x in IdSet(s, 0) {
        var n :| 0 <= n < |docs| && docs[n].id == x;
        assert docs[n] in multiset(docs);
        assert docs[n] in multiset(s);
      }
      forall x | x in IdSet(s, 0) ensures x in IdSet(docs, 0) {
        var n :| 0 <= n < |s| && s[n].id == x;
        assert s[n] in multiset(s);
        assert s[n] in multiset(docs);
      }
    }
  }

  /** Each key of a merged document reads the value of the first document
      that has it, or of the last for an association key. */
  lemma MergedDocValue<V>(docs: seq<Doc<V>>, k: nat, key: string, n: int)
    requires k < |MergeFrom(SortById(docs), 0)|
    requires var items := Fields(ById(docs, MergeFrom(SortById(docs), 0)[k].id));
      if IsAssociationKey(key) then IsLastKey(items, key, n) else IsFirstKey(items, key, n)
    ensures var items := Fields(ById(docs, MergeFrom(SortById(docs), 0)[k].id));
      Get(MergeFrom(SortById(docs), 0)[k].fields, key) == Some(items[n].1)
  {
    MergeDictsSpec(docs);
    MergedValue(Fields(ById(docs, MergeFrom(SortById(docs), 0)[k].id)), key, n);
  }
}
