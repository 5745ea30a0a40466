/** The trial-status selection script: for each key of a list of one-entry
    dicts, keep the status that comes latest in the ranked status list. */
module TrialStatus {

  import opened Common

  /** `status_lst`, from lowest to highest. */
  const StatusLst: seq<string> := [
    "Withdrawn from market", "Investigative", "Patented", "NDA filed", "Application Submitted",
    "Clinical trial", "Phase 1", "Phase 2", "Phase 1/2", "Phase 3", "Phase 2/3", "Approved"]

  /** `drug_lst`, each dict as its items. */
  const DrugLst: seq<seq<(string, string)>> := [
    [("D00GOV_treats_2C25.Y", "Approved")], [("D00GOV_treats_2C25.Y", "Phase 3")],
    [("D00DYI_treats_ED61.0", "Patented")], [("D00DYI_treats_ED61.0", "Patented")],
    [("D00PMB_treats_2E66.1", "Phase 3")], [("D00PMB_treats_2E66.1", "Phase 2")]]

  /** `xs.index(x)`, or None where Python raises ValueError. */
  function FirstIndex(xs: seq<string>, x: string): (r: Option<int>)
    ensures r.None? <==> x !in xs
    ensures r.Some? ==> 0 <= r.value < |xs| && xs[r.value] == x && forall j :: 0 <= j < r.value ==> xs[j] != x
  {
    if xs == [] then None
    else if xs[0] == x then Some(0)
    else match FirstIndex(xs[1..], x)
      case None => None
      case Some(i) => Some(i + 1)
  }

  /** The effect of one listed entry on `higher_status_dict`: its key takes
      the entry's rank when new or not lower. Only that key moves, to the
      larger of its two ranks, and keys stay unique. */
  function RankStep(h: seq<(string, int)>, key: string, idx: int): (r: seq<(string, int)>)
    ensures Get(r, key).Some? && Get(r, key).value >= idx
    ensures Get(h, key).Some? ==> Get(r, key).value >= Get(h, key).value
    ensures Get(r, key).value == idx || Get(r, key) == Get(h, key)
    ensures forall k :: k != key ==> Get(r, k) == Get(h, k)
    ensures Keys(r) == if key in Keys(h) then Keys(h) else Keys(h) + [key]
    ensures Distinct(Keys(h)) ==> Distinct(Keys(r))
  {
    var cur := Get(h, key);
    PutGet(h, key, idx);
    PutKeys(h, key, idx);
    if cur.Some? && cur.value > idx then h else Put(h, key, idx)
  }

  /** One entry of `drug_lst`: ignored when its status is not listed, else
      a `RankStep` of its key by the status's position. */
  function EntryStep(lst: seq<string>, h: seq<(string, int)>, e: (string, string)): (r: seq<(string, int)>)
    ensures FirstIndex(lst, e.1).None? ==> r == h
    ensures FirstIndex(lst, e.1).Some? ==> r == RankStep(h, e.0, FirstIndex(lst, e.1).value)
  {
    match FirstIndex(lst, e.1)
    case None => h
    case Some(idx) => RankStep(h, e.0, idx)
  }

  /** `higher_status_dict` after the given entries, in order. */
  function Rank(lst: seq<string>, entries: seq<(string, string)>): seq<(string, int)>
  {
    if entries == [] then [] else EntryStep(lst, Rank(lst, entries[..|entries| - 1]), entries[|entries| - 1])
  }

  lemma RankSnoc(lst: seq<string>, entries: seq<(string, string)>, e: (string, string))
    ensures Rank(lst, entries + [e]) == EntryStep(lst, Rank(lst, entries), e)
  {
    assert (entries + [e])[..|entries|] == entries;
  }

  /** The keys of the result are unique. */
  lemma {:induction false} RankKeys(lst: seq<string>, entries: seq<(string, string)>)
    ensures Distinct(Keys(Rank(lst, entries)))
  {
    if entries != [] {
      RankKeys(lst, entries[..|entries| - 1]);
    }
  }

  /** One entry ranks its key when listed and leaves the other keys. */
  lemma EntryStepPresent(lst: seq<string>, h: seq<(string, int)>, e: (string, string), k: string)
    ensures Get(EntryStep(lst, h, e), k).Some? <==> Get(h, k).Some? || (e.0 == k && FirstIndex(lst, e.1).Some?)
  {
  }

  /** A key is ranked iff one of its entries has a listed status. */
  lemma {:induction false} RankPresent(lst: seq<string>, entries: seq<(string, string)>, k: string)
    ensures Get(Rank(lst, entries), k).Some? <==>
              exists n :: 0 <= n < |entries| && entries[n].0 == k && FirstIndex(lst, entries[n].1).Some?
  {
    if entries != [] {
      var pre := entries[..|entries| - 1];
      var e := entries[|entries| - 1];
      RankPresent(lst, pre, k);
      EntryStepPresent(lst, Rank(lst, pre), e, k);
      if Get(Rank(lst, entries), k).Some? {
        if Get(Rank(lst, pre), k).Some? {
          var n :| 0 <= n < |pre| && pre[n].0 == k && FirstIndex(lst, pre[n].1).Some?;
          assert entries[n] == pre[n];
        } else {
          assert entries[|entries| - 1] == e;
        }
      } else {
        forall n | 0 <= n < |entries| && entries[n].0 == k
          ensures FirstIndex(lst, entries[n].1).None?
        {
          if n < |pre| {
            assert entries[n] == pre[n];
          }
        }
      }
    }
  }

  /** One entry never lowers a key's rank, and ranks its own key at least
      at its status's position. */
  lemma EntryStepGrows(lst: seq<string>, h: seq<(string, int)>, e: (string, string), k: string)
    ensures Get(h, k).Some? ==> Get(EntryStep(lst, h, e), k).Some? && Get(h, k).value <= Get(EntryStep(lst, h, e), k).value
    ensures e.0 == k && FirstIndex(lst, e.1).Some? ==>
              Get(EntryStep(lst, h, e), k).Some? && FirstIndex(lst, e.1).value <= Get(EntryStep(lst, h, e), k).value
  {
  }

  /** A ranked key's rank is at least the position of each of its listed
      statuses. */
  lemma {:induction false} RankUpper(lst: seq<string>, entries: seq<(string, string)>, k: string, n: nat)
    requires n < |entries| && entries[n].0 == k && FirstIndex(lst, entries[n].1).Some?
    ensures Get(Rank(lst, entries), k).Some? && FirstIndex(lst, entries[n].1).value <= Get(Rank(lst, entries), k).value
  {
    var pre := entries[..|entries| - 1];
    var e := entries[|entries| - 1];
    var h := Rank(lst, pre);
    assert Rank(lst, entries) == EntryStep(lst, h, e);
    EntryStepGrows(lst, h, e, k);
    var i := FirstIndex(lst, entries[n].1).value;
    if n < |pre| {
      assert entries[n] == pre[n];
      RankUpper(lst, pre, k, n);
      assert i <= Get(h, k).value;
    } else {
      assert e == entries[n];
    }
    assert i <= Get(EntryStep(lst, h, e), k).value;
  }

  /** A ranked key's rank is the position of one of its statuses. */
  lemma {:induction false} RankAttained(lst: seq<string>, entries: seq<(string, string)>, k: string)
    requires Get(Rank(lst, entries), k).Some?
    ensures exists n :: 0 <= n < |entries| && entries[n].0 == k && FirstIndex(lst, entries[n].1) == Get(Rank(lst, entries), k)
  {
    var pre := entries[..|entries| - 1];
    var e := entries[|entries| - 1];
    if Get(Rank(lst, entries), k) == Get(Rank(lst, pre), k) {
      RankAttained(lst, pre, k);
      var n :| 0 <= n < |pre| && pre[n].0 == k && FirstIndex(lst, pre[n].1) == Get(Rank(lst, pre), k);
      assert entries[n] == pre[n];
    } else {
      assert entries[|entries| - 1].0 == k && FirstIndex(lst, entries[|entries| - 1].1) == Get(Rank(lst, entries), k);
    }
  }

  /** A key is ranked iff one of its entries has a listed status, and then
      its rank is the highest of those entries' positions. */
  lemma RankSpec(lst: seq<string>, entries: seq<(string, string)>, k: string)
    ensures Distinct(Keys(Rank(lst, entries)))
    ensures Get(Rank(lst, entries), k).Some? <==>
              exists n :: 0 <= n < |entries| && entries[n].0 == k && FirstIndex(lst, entries[n].1).Some?
    ensures Get(Rank(lst, entries), k).Some? ==>
              (exists n :: 0 <= n < |entries| && entries[n].0 == k && FirstIndex(lst, entries[n].1) == Get(Rank(lst, entries), k))
              && (forall n :: 0 <= n < |entries| && entries[n].0 == k && FirstIndex(lst, entries[n].1).Some? ==>
                    FirstIndex(lst, entries[n].1).value <= Get(Rank(lst, entries), k).value)
  {
    RankKeys(lst, entries);
    RankPresent(lst, entries, k);
    if Get(Rank(lst, entries), k).Some? {
      RankAttained(lst, entries, k);
      forall n | 0 <= n < |entries| && entries[n].0 == k && FirstIndex(lst, entries[n].1).Some?
        ensures FirstIndex(lst, entries[n].1).value <= Get(Rank(lst, entries), k).value
      {
        RankUpper(lst, entries, k, n);
      }
    }
  }

  /** Every rank is a position in the status list. */
  lemma RankBounded(lst: seq<string>, entries: seq<(string, string)>)
    ensures forall i :: 0 <= i < |Rank(lst, entries)| ==> 0 <= Rank(lst, entries)[i].1 < |lst|
  {
    var h := Rank(lst, entries);
    forall i | 0 <= i < |h| ensures 0 <= h[i].1 < |lst| {
      RankKeys(lst, entries);
      GetAt(h, i);
      RankAttained(lst, entries, h[i].0);
    }
  }

  /** `new_dict`: each key with the name of its status. */
  function StatusNames(lst: seq<string>, h: seq<(string, int)>): (r: seq<(string, string)>)
    requires forall i :: 0 <= i < |h| ==> 0 <= h[i].1 < |lst|
    ensures |r| == |h| && forall i :: 0 <= i < |h| ==> r[i].0 == h[i].0 && r[i].1 in lst
  {
    seq(|h|, i requires 0 <= i < |h| => (h[i].0, lst[h[i].1]))
  }

  /** The loop at lines 39-50 keeps `trial_pos` beside the result: the same
      keys in the same order, each at most its result. */
  predicate Tracks(trialPos: seq<(string, int)>, higher: seq<(string, int)>)
  {
    && Keys(trialPos) == Keys(higher)
    && Distinct(Keys(higher))
    && forall k :: k in Keys(trialPos) ==> Get(trialPos, k).value <= Get(higher, k).value
  }

  /** The script: the nested loops over `drug_lst` fill `higher_status_dict`,
      then `new_dict` names each key's status. */
  method HigherStatus(statusLst: seq<string>, drugLst: seq<seq<(string, string)>>)
      returns (higher: seq<(string, int)>, newDict: seq<(string, string)>)
    ensures higher == Rank(statusLst, Concat(drugLst))
    ensures forall i :: 0 <= i < |higher| ==> 0 <= higher[i].1 < |statusLst|
    ensures newDict == StatusNames(statusLst, higher)
  {
    higher := [];
    var trialPos: seq<(string, int)> := [];
    for i := 0 to |drugLst|
      invariant higher == Rank(statusLst, Concat(drugLst[..i]))
      invariant Tracks(trialPos, higher)
    {
      var d := drugLst[i];
      trialPos, higher := ApplyDict(statusLst, d, Concat(drugLst[..i]), trialPos, higher);
      ConcatAppend(drugLst[..i], [d]);
      assert drugLst[..i + 1] == drugLst[..i] + [d];
    }
    assert drugLst[..|drugLst|] == drugLst;
    RankBounded(statusLst, Concat(drugLst));
    RankKeys(statusLst, Concat(drugLst));
    newDict := NameStatuses(statusLst, higher);
  }

  /** The body of the outer loop: each listed entry of one dict updates
      `trial_pos` and then `higher_status_dict`. */
  method ApplyDict(statusLst: seq<string>, d: seq<(string, string)>, done: seq<(string, string)>,
                   trialPos0: seq<(string, int)>, higher0: seq<(string, int)>)
      returns (trialPos: seq<(string, int)>, higher: seq<(string, int)>)
    requires higher0 == Rank(statusLst, done) && Tracks(trialPos0, higher0)
    ensures higher == Rank(statusLst, done + d) && Tracks(trialPos, higher)
  {
    trialPos, higher := trialPos0, higher0;
    assert done + d[..0] == done;
    for j := 0 to |d|
      invariant higher == Rank(statusLst, done + d[..j])
      invariant Tracks(trialPos, higher)
    {
      var (key, status) := d[j];
      SnocSlice(done, d, j);
      RankSnoc(statusLst, done + d[..j], d[j]);
      var index := FirstIndex(statusLst, status);
      if index.Some? {
        var before := trialPos;
        trialPos := Put(trialPos, key, index.value);
        higher := ApplyTrialPos(before, trialPos, higher, key, index.value);
      }
    }
    assert d[..|d|] == d;
  }

  lemma SnocSlice<T>(a: seq<T>, d: seq<T>, j: nat)
    requires j < |d|
    ensures a + d[..j + 1] == a + d[..j] + [d[j]]
  {
    assert d[..j + 1] == d[..j] + [d[j]];
  }

  /** The loop at lines 54-56: `new_dict[k] = status_lst[v]` for each item,
      in order; the keys are new each time, so each goes last. */
  method NameStatuses(statusLst: seq<string>, higher: seq<(string, int)>) returns (newDict: seq<(string, string)>)
    requires Distinct(Keys(higher))
    requires forall i :: 0 <= i < |higher| ==> 0 <= higher[i].1 < |statusLst|
    ensures newDict == StatusNames(statusLst, higher)
  {
    newDict := [];
    for i := 0 to |higher|
      invariant newDict == StatusNames(statusLst, higher[..i])
    {
      var (k, v) := higher[i];
      assert Keys(newDict) == Keys(higher[..i]);
      assert k !in Keys(higher[..i]) by {
        assert forall n :: 0 <= n < i ==> Keys(higher)[n] != Keys(higher)[i];
      }
      PutNew(newDict, k, statusLst[v]);
      newDict := Put(newDict, k, statusLst[v]);
      assert higher[..i + 1] == higher[..i] + [higher[i]];
    }
    assert higher[..|higher|] == higher;
  }

  /** Writing back the value a key already has changes nothing. */
  lemma PutSame(d: seq<(string, int)>, k: string, v: int)
    requires Distinct(Keys(d)) && Get(d, k) == Some(v)
    ensures Put(d, k, v) == d
  {
    PutGet(d, k, v);
    PutKeys(d, k, v);
    DictEqual(Put(d, k, v), d);
  }

  /** Recording an entry in both dicts keeps `trial_pos` in step. */
  lemma TracksStep(before: seq<(string, int)>, h0: seq<(string, int)>, key: string, idx: int)
    requires Tracks(before, h0)
    ensures Tracks(Put(before, key, idx), RankStep(h0, key, idx))
  {
    PutGet(before, key, idx);
    PutKeys(before, key, idx);
  }

  /** Re-applying the recorded position of a key other than the entry's
      leaves the result as it is. */
  lemma OtherKeyNoop(before: seq<(string, int)>, h0: seq<(string, int)>, key: string, idx: int,
                     prev: seq<(string, int)>, k: string, v: int)
    requires Tracks(before, h0) && k != key && Get(Put(before, key, idx), k) == Some(v)
    requires prev == h0 || prev == RankStep(h0, key, idx)
    ensures RankStep(prev, k, v) == prev
  {
    PutGet(before, key, idx);
    assert k in Keys(before);
    assert Get(prev, k) == Get(h0, k);
    RankStepNoop(prev, k, v);
  }

  /** A position no higher than the key's current one changes nothing. */
  lemma RankStepNoop(h: seq<(string, int)>, k: string, v: int)
    requires Distinct(Keys(h)) && Get(h, k).Some? && v <= Get(h, k).value
    ensures RankStep(h, k, v) == h
  {
    if Get(h, k).value == v {
      PutSame(h, k, v);
    }
  }

  /** The item at position `m` of `trial_pos` after an entry of `key`,
      which sits at position `p`: it reads back as itself, and it is
      `key`'s, with that entry's position, exactly when `m` is `p`. */
  lemma TrialPosItem(before: seq<(string, int)>, h0: seq<(string, int)>, key: string, idx: int, p: nat, m: nat)
    requires Tracks(before, h0) && p < |Put(before, key, idx)| && m < |Put(before, key, idx)|
    requires Put(before, key, idx)[p].0 == key
    ensures Get(Put(before, key, idx), Put(before, key, idx)[m].0) == Some(Put(before, key, idx)[m].1)
    ensures Put(before, key, idx)[m].0 == key <==> m == p
    ensures m == p ==> Put(before, key, idx)[m].1 == idx
  {
    var tp := Put(before, key, idx);
    PutGet(before, key, idx);
    PutKeys(before, key, idx);
    GetAt(tp, m);
    GetAt(tp, p);
    var ks := Keys(tp);
    assert ks[m] == tp[m].0 && ks[p] == tp[p].0;
  }

  /** The inner loop over `trial_pos` after an entry of `key` at position
      `idx`: only `key` can change, since every other key's recorded
      position is at most its result, so rewriting it is a no-op. */
  method ApplyTrialPos(before: seq<(string, int)>, trialPos: seq<(string, int)>, h0: seq<(string, int)>, key: string, idx: int)
      returns (higher: seq<(string, int)>)
    requires Tracks(before, h0) && trialPos == Put(before, key, idx)
    ensures higher == RankStep(h0, key, idx)
    ensures Tracks(trialPos, higher)
  {
    PutGet(before, key, idx);
    assert key in Keys(trialPos);
    ghost var p :| 0 <= p < |trialPos| && Keys(trialPos)[p] == key;
    var target := RankStep(h0, key, idx);
    higher := h0;
    for m := 0 to |trialPos|
      invariant higher == if m > p then target else h0
    {
      var k, v := trialPos[m].0, trialPos[m].1;
      TrialPosItem(before, h0, key, idx, p, m);
      var prev := higher;
      RankStepCases(prev, k, v);
      if k in Keys(higher) && v >= Get(higher, k).value {
        higher := Put(higher, k, v);
      } else if k !in Keys(higher) {
        higher := Put(higher, k, v);
      }
      assert higher == RankStep(prev, k, v);
      if k != key {
        OtherKeyNoop(before, h0, key, idx, prev, k, v);
      }
    }
    TracksStep(before, h0, key, idx);
  }

  /** `RankStep` read as the script's two tests: a present key is rewritten
      when the new position is at least its own, a missing key is added. */
  lemma RankStepCases(h: seq<(string, int)>, k: string, v: int)
    ensures k in Keys(h) && v >= Get(h, k).value ==> RankStep(h, k, v) == Put(h, k, v)
    ensures k !in Keys(h) ==> RankStep(h, k, v) == Put(h, k, v)
    ensures k in Keys(h) && v < Get(h, k).value ==> RankStep(h, k, v) == h
  {
  }

  /** A position holding `x` with no `x` before it is the first index. */
  lemma FirstIndexAt(xs: seq<string>, x: string, i: nat)
    requires i < |xs| && xs[i] == x && forall j :: 0 <= j < i ==> xs[j] != x
    ensures FirstIndex(xs, x) == Some(i)
  {
  }

  /** An entry whose key is new is appended with its position. */
  lemma RankSnocNew(lst: seq<string>, p: seq<(string, string)>, r: seq<(string, int)>, e: (string, string), i: int)
    requires Rank(lst, p) == r && FirstIndex(lst, e.1) == Some(i) && e.0 !in Keys(r)
    ensures Rank(lst, p + [e]) == r + [(e.0, i)]
  {
    RankSnoc(lst, p, e);
    PutNew(r, e.0, i);
  }

  /** An entry no higher than its key's current position changes nothing. */
  lemma RankSnocLower(lst: seq<string>, p: seq<(string, string)>, r: seq<(string, int)>, e: (string, string), i: int)
    requires Rank(lst, p) == r && FirstIndex(lst, e.1) == Some(i)
    requires Distinct(Keys(r)) && Get(r, e.0).Some? && i <= Get(r, e.0).value
    ensures Rank(lst, p + [e]) == r
  {
    RankSnoc(lst, p, e);
    RankStepNoop(r, e.0, i);
  }

  /** Two entries for a key not ranked yet, the second no higher than the
      first: the key is added with the first entry's position. */
  lemma KeyPair(lst: seq<string>, p: seq<(string, string)>, r: seq<(string, int)>,
                k: string, s1: string, s2: string, i1: int, i2: int)
    requires Rank(lst, p) == r && Distinct(Keys(r)) && k !in Keys(r)
    requires FirstIndex(lst, s1) == Some(i1) && FirstIndex(lst, s2) == Some(i2) && i2 <= i1
    ensures Rank(lst, p + [(k, s1)] + [(k, s2)]) == r + [(k, i1)]
    ensures Keys(r + [(k, i1)]) == Keys(r) + [k] && Distinct(Keys(r + [(k, i1)]))
  {
    RankSnocNew(lst, p, r, (k, s1), i1);
    PutNew(r, k, i1);
    PutKeys(r, k, i1);
    PutGet(r, k, i1);
    RankSnocLower(lst, p + [(k, s1)], r + [(k, i1)], (k, s2), i2);
  }

  /** The shape of `drug_lst`: three keys, two entries each, the second
      never above the first. */
  lemma SixEntries(lst: seq<string>, gov: string, dyi: string, pmb: string,
                   approved: string, phase3: string, patented: string, phase2: string)
    requires gov != dyi && gov != pmb && dyi != pmb
    requires FirstIndex(lst, approved) == Some(11) && FirstIndex(lst, phase3) == Some(9)
    requires FirstIndex(lst, patented) == Some(2) && FirstIndex(lst, phase2) == Some(7)
    ensures Rank(lst, [] + [(gov, approved)] + [(gov, phase3)] + [(dyi, patented)] + [(dyi, patented)]
                        + [(pmb, phase3)] + [(pmb, phase2)])
              == [] + [(gov, 11)] + [(dyi, 2)] + [(pmb, 9)]
  {
    FourEntries(lst, gov, dyi, approved, phase3, patented);
    assert Keys<string, int>([]) == [];
    KeyPair(lst, [] + [(gov, approved)] + [(gov, phase3)] + [(dyi, patented)] + [(dyi, patented)],
            [] + [(gov, 11)] + [(dyi, 2)], pmb, phase3, phase2, 9, 7);
  }

  /** The first two keys of `drug_lst`. */
  lemma FourEntries(lst: seq<string>, gov: string, dyi: string, approved: string, phase3: string, patented: string)
    requires gov != dyi
    requires FirstIndex(lst, approved) == Some(11) && FirstIndex(lst, phase3) == Some(9)
    requires FirstIndex(lst, patented) == Some(2)
    ensures Rank(lst, [] + [(gov, approved)] + [(gov, phase3)] + [(dyi, patented)] + [(dyi, patented)])
              == [] + [(gov, 11)] + [(dyi, 2)]
    ensures Keys([] + [(gov, 11)] + [(dyi, 2)]) == Keys<string, int>([]) + [gov] + [dyi]
    ensures Distinct(Keys([] + [(gov, 11)] + [(dyi, 2)]))
  {
    assert Keys<string, int>([]) == [];
    KeyPair(lst, [], [], gov, approved, phase3, 11, 9);
    KeyPair(lst, [] + [(gov, approved)] + [(gov, phase3)], [] + [(gov, 11)], dyi, patented, patented, 2, 2);
  }

  lemma SixSnocs<T>(a: T, b: T, c: T, d: T, e: T, f: T)
    ensures [] + [a] + [b] + [c] + [d] + [e] + [f] == [a, b, c, d, e, f]
  {
  }

  lemma ThreeSnocs<T>(a: T, b: T, c: T)
    ensures [] + [a] + [b] + [c] == [a, b, c]
  {
  }

  /** The positions of the statuses that occur in `drug_lst`. */
  lemma ApprovedPosition()
    ensures FirstIndex(StatusLst, "Approved") == Some(11)
  {
    FirstIndexAt(StatusLst, "Approved", 11);
  }

  lemma Phase3Position()
    ensures FirstIndex(StatusLst, "Phase 3") == Some(9)
  {
    FirstIndexAt(StatusLst, "Phase 3", 9);
  }

  lemma PatentedPosition()
    ensures FirstIndex(StatusLst, "Patented") == Some(2)
  {
    FirstIndexAt(StatusLst, "Patented", 2);
  }

  lemma Phase2Position()
    ensures FirstIndex(StatusLst, "Phase 2") == Some(7)
  {
    FirstIndexAt(StatusLst, "Phase 2", 7);
  }

  /** Naming three ranked keys. */
  lemma ThreeNames(lst: seq<string>, a: string, b: string, c: string, i: int, j: int, k: int)
    requires 0 <= i < |lst| && 0 <= j < |lst| && 0 <= k < |lst|
    ensures StatusNames(lst, [(a, i), (b, j), (c, k)]) == [(a, lst[i]), (b, lst[j]), (c, lst[k])]
  {
  }

  /** `drug_lst` flattened. */
  lemma DrugLstEntries()
    ensures Concat(DrugLst) == [
      ("D00GOV_treats_2C25.Y", "Approved"), ("D00GOV_treats_2C25.Y", "Phase 3"),
      ("D00DYI_treats_ED61.0", "Patented"), ("D00DYI_treats_ED61.0", "Patented"),
      ("D00PMB_treats_2E66.1", "Phase 3"), ("D00PMB_treats_2E66.1", "Phase 2")]
  {
  }

  /** For the hard-coded list the positions reached are those of
      Approved, Patented and Phase 3, in first-seen key order. */
  lemma DrugLstRank()
    ensures Rank(StatusLst, Concat(DrugLst)) ==
              [("D00GOV_treats_2C25.Y", 11), ("D00DYI_treats_ED61.0", 2), ("D00PMB_treats_2E66.1", 9)]
  {
    ApprovedPosition();
    Phase3Position();
    PatentedPosition();
    Phase2Position();
    DrugLstEntries();
    SixEntries(StatusLst, "D00GOV_treats_2C25.Y", "D00DYI_treats_ED61.0", "D00PMB_treats_2E66.1",
               "Approved", "Phase 3", "Patented", "Phase 2");
    SixSnocs(("D00GOV_treats_2C25.Y", "Approved"), ("D00GOV_treats_2C25.Y", "Phase 3"),
             ("D00DYI_treats_ED61.0", "Patented"), ("D00DYI_treats_ED61.0", "Patented"),
             ("D00PMB_treats_2E66.1", "Phase 3"), ("D00PMB_treats_2E66.1", "Phase 2"));
    ThreeSnocs(("D00GOV_treats_2C25.Y", 11), ("D00DYI_treats_ED61.0", 2), ("D00PMB_treats_2E66.1", 9));
  }

  /** For the hard-coded list, D00GOV ends Approved, D00DYI Patented and
      D00PMB Phase 3. */
  lemma DrugLstResult()
    ensures (RankBounded(StatusLst, Concat(DrugLst)); StatusNames(StatusLst, Rank(StatusLst, Concat(DrugLst)))) == [
      ("D00GOV_treats_2C25.Y", "Approved"),
      ("D00DYI_treats_ED61.0", "Patented"),
      ("D00PMB_treats_2E66.1", "Phase 3")]
  {
    DrugLstRank();
    ThreeNames(StatusLst, "D00GOV_treats_2C25.Y", "D00DYI_treats_ED61.0", "D00PMB_treats_2E66.1", 11, 2, 9);
    assert StatusLst[11] == "Approved" && StatusLst[2] == "Patented" && StatusLst[9] == "Phase 3";
  }
}
