/** The aggregation step of `UniprotMapping.run_async_tasks`: the fetched
    (kb, ac) pairs are deduplicated, each is attributed to a target through
    the accessions the target-download file lists for it, and the kbs are
    grouped per target. */
module Aggregation {

  import opened Common
  import opened Strings
  import opened Accessions
  import opened Resolution

  // ---------------------------------------------------------------------
  // ac_dict: target id -> "uniprot_ac" value
  // ---------------------------------------------------------------------

  /** `{d["ttd_target_id"]: d["uniprot_ac"] for d in ac_info}`, or the
      KeyError of the first record without "uniprot_ac" (its position). */
  function AcTable(recs: seq<TargetAc>): Result<seq<(string, Field)>, nat>
  {
    if recs == [] then Ok([])
    else
      var n := |recs| - 1;
      match AcTable(recs[..n])
      case Err(e) => Err(e)
      case Ok(t) =>
        if recs[n].ac.None? then Err(n) else Ok(Put(t, recs[n].targetId, recs[n].ac.value))
  }

  /** Record `n` is the last one of its target. */
  predicate IsLastOfTarget(recs: seq<TargetAc>, n: int)
  {
    0 <= n < |recs| && forall m :: n < m < |recs| ==> recs[m].targetId != recs[n].targetId
  }

  /** The comprehension fails exactly when some record lacks "uniprot_ac",
      and then at the first such record. */
  lemma {:induction false} AcTableErr(recs: seq<TargetAc>)
    ensures AcTable(recs).Err? <==> exists i :: 0 <= i < |recs| && recs[i].ac.None?
    ensures AcTable(recs).Err? ==>
              var e := AcTable(recs).error;
              e < |recs| && recs[e].ac.None? && forall j :: 0 <= j < e ==> recs[j].ac.Some?
  {
    if recs != [] {
      var n := |recs| - 1;
      AcTableErr(recs[..n]);
      if AcTable(recs[..n]).Err? {
        var i :| 0 <= i < n && recs[..n][i].ac.None?;
        assert recs[i].ac.None?;
      } else {
        assert forall i :: 0 <= i < n ==> recs[i].ac.Some? by {
          forall i | 0 <= i < n ensures recs[i].ac.Some? { assert recs[..n][i] == recs[i]; }
        }
      }
    }
  }

  /** Without a KeyError the dict has one key per target that occurs. */
  lemma {:induction false} AcTableKeys(recs: seq<TargetAc>)
    requires AcTable(recs).Ok?
    ensures Distinct(Keys(AcTable(recs).value))
    ensures forall id :: id in Keys(AcTable(recs).value) <==> id in TargetIds(recs)
  {
    if recs != [] {
      var n := |recs| - 1;
      var pre := recs[..n];
      AcTableKeys(pre);
      var t := AcTable(pre).value;
      PutKeys(t, recs[n].targetId, recs[n].ac.value);
      assert recs == pre + [recs[n]];
      TargetIdsSnoc(pre, recs[n]);
    }
  }

  /** The target ids of the records. */
  function TargetIds(recs: seq<TargetAc>): set<string>
  {
    set i | 0 <= i < |recs| :: recs[i].targetId
  }

  lemma TargetIdsSnoc(recs: seq<TargetAc>, x: TargetAc)
    ensures TargetIds(recs + [x]) == TargetIds(recs) + {x.targetId}
  {
    var ys := recs + [x];
    assert ys[|recs|] == x;
    forall id | id in TargetIds(ys) ensures id in TargetIds(recs) + {x.targetId} {
      var i :| 0 <= i < |ys| && ys[i].targetId == id;
      if i < |recs| { assert ys[i] == recs[i]; }
    }
    forall id | id in TargetIds(recs) ensures id in TargetIds(ys) {
      var i :| 0 <= i < |recs| && recs[i].targetId == id;
      assert ys[i] == recs[i];
    }
  }

  /** Each key holds the "uniprot_ac" of its target's last record. */
  lemma AcTableLast(recs: seq<TargetAc>)
    requires AcTable(recs).Ok?
    ensures forall n :: IsLastOfTarget(recs, n) ==> Get(AcTable(recs).value, recs[n].targetId) == recs[n].ac
  {
    forall n | IsLastOfTarget(recs, n) ensures Get(AcTable(recs).value, recs[n].targetId) == recs[n].ac {
      AcTableLastAt(recs, n);
    }
  }

  lemma {:induction false} AcTableLastAt(recs: seq<TargetAc>, n: nat)
    requires AcTable(recs).Ok? && IsLastOfTarget(recs, n)
    ensures Get(AcTable(recs).value, recs[n].targetId) == recs[n].ac
  {
    var last := |recs| - 1;
    var pre := recs[..last];
    var x := recs[last];
    assert AcTable(pre).Ok? && x.ac.Some?;
    var t := AcTable(pre).value;
    assert AcTable(recs).value == Put(t, x.targetId, x.ac.value);
    PutGet(t, x.targetId, x.ac.value);
    if n < last {
      assert pre[n] == recs[n];
      assert IsLastOfTarget(pre, n) by {
        forall k | n < k < |pre| ensures pre[k].targetId != pre[n].targetId {
          assert pre[k] == recs[k];
        }
      }
      AcTableLastAt(pre, n);
      assert recs[n].targetId != x.targetId;
      assert Get(AcTable(recs).value, recs[n].targetId) == Get(t, pre[n].targetId);
    } else {
      assert recs[n] == x;
    }
  }

  /** The loop of the dict comprehension. */
  method BuildAcTable(recs: seq<TargetAc>) returns (r: Result<seq<(string, Field)>, nat>)
    ensures r == AcTable(recs)
  {
    var table: seq<(string, Field)> := [];
    var i := 0;
    while i < |recs|
      invariant 0 <= i <= |recs|
      invariant AcTable(recs[..i]) == Ok(table)
    {
      assert recs[..i + 1][..i] == recs[..i];
      if recs[i].ac.None? {
        AcTableErrSticks(recs, i + 1);
        return Err(i);
      }
      table := Put(table, recs[i].targetId, recs[i].ac.value);
      i := i + 1;
    }
    assert recs[..i] == recs;
    r := Ok(table);
  }

  /** Once a prefix raises, the whole comprehension raises the same error. */
  lemma {:induction false} AcTableErrSticks(recs: seq<TargetAc>, n: nat)
    requires n <= |recs| && AcTable(recs[..n]).Err?
    ensures AcTable(recs) == AcTable(recs[..n])
    decreases |recs| - n
  {
    if n < |recs| {
      assert recs[..n + 1][..n] == recs[..n];
      AcTableErrSticks(recs, n + 1);
    } else {
      assert recs[..n] == recs;
    }
  }

  // ---------------------------------------------------------------------
  // Attribution: the target whose accessions contain the pair's ac
  // ---------------------------------------------------------------------

  /** `d["uniprot_ac"] in value`: membership for a list, substring for a
      string. */
  predicate Holds(v: Field, ac: string)
  {
    match v
    case Many(items) => ac in items
    case One(t) => IsSubstring(ac, t)
  }

  /** The key the loop over `ac_dict.items()` leaves in "ttd_target_id":
      each match overwrites the previous one, so the last matching key in
      dict order; None when no key matches (the key is then never set). */
  function Owner(table: seq<(string, Field)>, ac: string): Option<string>
  {
    if table == [] then None
    else
      var n := |table| - 1;
      if Holds(table[n].1, ac) then Some(table[n].0) else Owner(table[..n], ac)
  }

  /** No key matches iff the owner is None; otherwise the owner is the key
      of a matching entry after which no entry matches. */
  lemma {:induction false} OwnerSpec(table: seq<(string, Field)>, ac: string)
    ensures Owner(table, ac).None? <==> forall i :: 0 <= i < |table| ==> !Holds(table[i].1, ac)
    ensures Owner(table, ac).Some? ==>
              exists i :: 0 <= i < |table| && table[i].0 == Owner(table, ac).value && Holds(table[i].1, ac)
                          && forall j :: i < j < |table| ==> !Holds(table[j].1, ac)
  {
    if table != [] {
      var n := |table| - 1;
      var pre := table[..n];
      OwnerSpec(pre, ac);
      if !Holds(table[n].1, ac) {
        if Owner(pre, ac).None? {
          forall i | 0 <= i < |table| ensures !Holds(table[i].1, ac) {
            if i < n { assert pre[i] == table[i]; }
          }
        } else {
          var i :| 0 <= i < n && pre[i].0 == Owner(pre, ac).value && Holds(pre[i].1, ac)
                   && forall j :: i < j < n ==> !Holds(pre[j].1, ac);
          assert table[i] == pre[i];
          forall j | i < j < |table| ensures !Holds(table[j].1, ac) {
            if j < n { assert pre[j] == table[j]; }
          }
        }
      }
    }
  }

  /** A fetched pair with the target it was attributed to (None when no
      target lists its ac). */
  datatype Attributed = Attributed(pair: KbAc, target: Option<string>)

  /** The nested loops that write "ttd_target_id" into each pair. */
  method Attribute(pairs: seq<KbAc>, table: seq<(string, Field)>) returns (items: seq<Attributed>)
    ensures |items| == |pairs|
    ensures forall i :: 0 <= i < |pairs| ==> items[i] == Attributed(pairs[i], Owner(table, pairs[i].ac))
  {
    items := [];
    var i := 0;
    while i < |pairs|
      invariant 0 <= i <= |pairs| && |items| == i
      invariant forall k :: 0 <= k < i ==> items[k] == Attributed(pairs[k], Owner(table, pairs[k].ac))
    {
      var owner: Option<string> := None;
      var j := 0;
      while j < |table|
        invariant 0 <= j <= |table|
        invariant owner == Owner(table[..j], pairs[i].ac)
      {
        assert table[..j + 1][..j] == table[..j];
        if Holds(table[j].1, pairs[i].ac) {
          owner := Some(table[j].0);
        }
        j := j + 1;
      }
      assert table[..j] == table;
      items := items + [Attributed(pairs[i], owner)];
      i := i + 1;
    }
  }

  // ---------------------------------------------------------------------
  // Grouping: defaultdict(list) keyed by target
  // ---------------------------------------------------------------------

  /** `merged_uniprot_dict[t]`, an empty list for a missing key. */
  function Listing(g: seq<(Option<string>, seq<string>)>, t: Option<string>): seq<string>
  {
    match Get(g, t)
    case None => []
    case Some(l) => l
  }

  /** The grouping loop, over a prefix of the attributed pairs. */
  function Grouped(items: seq<Attributed>): seq<(Option<string>, seq<string>)>
  {
    if items == [] then []
    else
      var n := |items| - 1;
      var g := Grouped(items[..n]);
      Put(g, items[n].target, Listing(g, items[n].target) + [items[n].pair.kb])
  }

  /** The reference: the kbs of the pairs attributed to `t`, in order. */
  function KbsFor(items: seq<Attributed>, t: Option<string>): seq<string>
  {
    if items == [] then []
    else (if items[0].target == t then [items[0].pair.kb] else []) + KbsFor(items[1..], t)
  }

  lemma {:induction false} KbsForSnoc(items: seq<Attributed>, x: Attributed, t: Option<string>)
    ensures KbsFor(items + [x], t) == KbsFor(items, t) + (if x.target == t then [x.pair.kb] else [])
  {
    if items == [] {
      assert [x][1..] == [];
    } else {
      assert (items + [x])[1..] == items[1..] + [x];
      KbsForSnoc(items[1..], x, t);
    }
  }

  /** The kbs listed for `t` are the kbs of the pairs attributed to `t`. */
  lemma {:induction false} KbsForElems(items: seq<Attributed>, t: Option<string>)
    ensures Elems(KbsFor(items, t)) == set x | x in items && x.target == t :: x.pair.kb
  {
    if items != [] {
      var rest := items[1..];
      KbsForElems(rest, t);
      var lhs := Elems(KbsFor(items, t));
      var rhs := set x | x in items && x.target == t :: x.pair.kb;
      forall kb | kb in lhs ensures kb in rhs {
        if kb !in Elems(KbsFor(rest, t)) {
          assert items[0].target == t && kb == items[0].pair.kb;
        } else {
          var x :| x in rest && x.target == t && x.pair.kb == kb;
          assert x in items;
        }
      }
      forall kb | kb in rhs ensures kb in lhs {
        var x :| x in items && x.target == t && x.pair.kb == kb;
        if x == items[0] {
          assert KbsFor(items, t) == [kb] + KbsFor(rest, t);
        } else {
          assert x in rest;
          assert kb in Elems(KbsFor(rest, t));
        }
      }
    }
  }

  /** The grouped dict has one key per target that occurs. */
  lemma {:induction false} GroupedKeys(items: seq<Attributed>)
    ensures Distinct(Keys(Grouped(items)))
  {
    if items != [] {
      var n := |items| - 1;
      var g := Grouped(items[..n]);
      GroupedKeys(items[..n]);
      PutKeys(g, items[n].target, Listing(g, items[n].target) + [items[n].pair.kb]);
    }
  }

  /** Each key of the grouped dict lists exactly the kbs attributed to it,
      in order, and a target with no kb has no key. */
  lemma {:induction false} GroupedGet(items: seq<Attributed>, t: Option<string>)
    ensures Get(Grouped(items), t) == if KbsFor(items, t) == [] then None else Some(KbsFor(items, t))
  {
    if items != [] {
      var n := |items| - 1;
      var pre := items[..n];
      var x := items[n];
      GroupedGet(pre, t);
      var g := Grouped(pre);
      PutGet(g, x.target, Listing(g, x.target) + [x.pair.kb]);
      InitLast(items);
      KbsForSnoc(pre, x, t);
      var l := Listing(g, x.target) + [x.pair.kb];
      assert Grouped(items) == Put(g, x.target, l);
      if x.target == t {
        assert Listing(g, t) == KbsFor(pre, t);
        assert KbsFor(items, t) == l;
        assert Get(Grouped(items), t) == Some(l);
      } else {
        assert Get(Grouped(items), t) == Get(g, t);
        assert KbsFor(items, t) == KbsFor(pre, t);
      }
    }
  }

  /** The grouping loop. */
  method Group(items: seq<Attributed>) returns (g: seq<(Option<string>, seq<string>)>)
    ensures g == Grouped(items)
    ensures Distinct(Keys(g))
    ensures forall t :: Get(g, t) == if KbsFor(items, t) == [] then None else Some(KbsFor(items, t))
  {
    g := [];
    var i := 0;
    while i < |items|
      invariant 0 <= i <= |items|
      invariant g == Grouped(items[..i])
    {
      assert items[..i + 1][..i] == items[..i];
      g := Put(g, items[i].target, Listing(g, items[i].target) + [items[i].pair.kb]);
      i := i + 1;
    }
    assert items[..i] == items;
    GroupedKeys(items);
    forall t ensures Get(g, t) == if KbsFor(items, t) == [] then None else Some(KbsFor(items, t)) {
      GroupedGet(items, t);
    }
  }

  // ---------------------------------------------------------------------
  // The output records
  // ---------------------------------------------------------------------

  /** `{"ttd_target_id": key, "uniprot": list(set(value))}` */
  datatype Resolved = Resolved(targetId: Option<string>, uniprot: seq<string>)

  /** The last loop: one record per key, its kbs without repeats. */
  method Finalise(g: seq<(Option<string>, seq<string>)>) returns (out: seq<Resolved>)
    ensures |out| == |g|
    ensures forall i :: 0 <= i < |g| ==> out[i].targetId == g[i].0
    ensures forall i :: 0 <= i < |g| ==> Distinct(out[i].uniprot) && Elems(out[i].uniprot) == Elems(g[i].1)
  {
    out := [];
    var i := 0;
    while i < |g|
      invariant 0 <= i <= |g| && |out| == i
      invariant forall k :: 0 <= k < i ==> out[k].targetId == g[k].0
      invariant forall k :: 0 <= k < i ==> Distinct(out[k].uniprot) && Elems(out[k].uniprot) == Elems(g[k].1)
    {
      var id := (a: string) => a;
      var unique := DedupBy(g[i].1, id);
      UniqueElems(g[i].1, unique, id);
      out := out + [Resolved(g[i].0, unique)];
      i := i + 1;
    }
  }

  /** The kbs of the pairs whose ac is attributed to `t`. */
  function OwnedKbs(pairs: seq<KbAc>, table: seq<(string, Field)>, t: Option<string>): set<string>
  {
    set p | p in pairs && Owner(table, p.ac) == t :: p.kb
  }

  /** The targets of the output records. */
  function Targets(out: seq<Resolved>): set<Option<string>>
  {
    set i | 0 <= i < |out| :: out[i].targetId
  }

  /** What the output of `run_async_tasks` is: one record per target that
      some pair is attributed to (None for pairs no target lists), none
      repeated, each listing exactly the kbs of its pairs, without repeats. */
  predicate IsAggregation(out: seq<Resolved>, mapped: seq<KbAc>, table: seq<(string, Field)>)
  {
    && (forall i, j :: 0 <= i < j < |out| ==> out[i].targetId != out[j].targetId)
    && (forall i :: 0 <= i < |out| ==>
          && out[i].uniprot != []
          && Distinct(out[i].uniprot)
          && Elems(out[i].uniprot) == OwnedKbs(mapped, table, out[i].targetId))
    && (forall p :: p in mapped ==> Owner(table, p.ac) in Targets(out))
  }

  /** The aggregation of `run_async_tasks`, from the fetched pairs and the
      accession records. It raises the KeyError of the dict comprehension
      when a record has no "uniprot_ac". */
  method Aggregate(mapped: seq<KbAc>, acInfo: seq<TargetAc>) returns (r: Result<seq<Resolved>, nat>)
    ensures r.Err? <==> AcTable(acInfo).Err?
    ensures r.Err? ==> r.error == AcTable(acInfo).error
    ensures r.Ok? ==> IsAggregation(r.value, mapped, AcTable(acInfo).value)
  {
    var id := (p: KbAc) => p;
    var filtered := DedupBy(mapped, id);
    UniqueElems(mapped, filtered, id);
    var t := BuildAcTable(acInfo);
    if t.Err? {
      return Err(t.error);
    }
    var table := t.value;
    var items := Attribute(filtered, table);
    var g := Group(items);
    var out := Finalise(g);
    forall i | 0 <= i < |out|
      ensures out[i].uniprot != [] && Elems(out[i].uniprot) == OwnedKbs(mapped, table, out[i].targetId)
    {
      GroupEntry(filtered, mapped, table, items, g, i);
      assert out[i].uniprot != [] by {
        assert g[i].1[0] in Elems(g[i].1);
      }
    }
    forall p | p in mapped ensures Owner(table, p.ac) in Targets(out) {
      assert p in Elems(filtered);
      var k := GroupCovers(filtered, table, items, g, p);
      assert out[k].targetId == Owner(table, p.ac);
    }
    forall i, j | 0 <= i < j < |out| ensures out[i].targetId != out[j].targetId {
      assert Keys(g)[i] != Keys(g)[j];
    }
    r := Ok(out);
  }

  /** A group lists the kbs its target owns, and at least one. */
  lemma GroupEntry(filtered: seq<KbAc>, mapped: seq<KbAc>, table: seq<(string, Field)>,
                   items: seq<Attributed>, g: seq<(Option<string>, seq<string>)>, i: nat)
    requires Elems(filtered) == Elems(mapped)
    requires |items| == |filtered|
    requires forall k :: 0 <= k < |filtered| ==> items[k] == Attributed(filtered[k], Owner(table, filtered[k].ac))
    requires Distinct(Keys(g)) && i < |g|
    requires Get(g, g[i].0) == if KbsFor(items, g[i].0) == [] then None else Some(KbsFor(items, g[i].0))
    ensures g[i].1 != [] && Elems(g[i].1) == OwnedKbs(mapped, table, g[i].0)
  {
    var t := g[i].0;
    GetAt(g, i);
    KbsForElems(items, t);
    AttributedKbs(filtered, mapped, table, items, t);
  }

  /** The kbs attributed to `t` after deduplication are the kbs of all
      pairs whose ac belongs to `t`. */
  lemma AttributedKbs(filtered: seq<KbAc>, mapped: seq<KbAc>, table: seq<(string, Field)>,
                      items: seq<Attributed>, t: Option<string>)
    requires Elems(filtered) == Elems(mapped)
    requires |items| == |filtered|
    requires forall k :: 0 <= k < |filtered| ==> items[k] == Attributed(filtered[k], Owner(table, filtered[k].ac))
    ensures (set x | x in items && x.target == t :: x.pair.kb) == OwnedKbs(mapped, table, t)
  {
    var lhs := set x | x in items && x.target == t :: x.pair.kb;
    forall kb | kb in lhs ensures kb in OwnedKbs(mapped, table, t) {
      var x :| x in items && x.target == t && x.pair.kb == kb;
      var k :| 0 <= k < |items| && items[k] == x;
      assert filtered[k] in Elems(mapped);
    }
    forall kb | kb in OwnedKbs(mapped, table, t) ensures kb in lhs {
      var p :| p in mapped && Owner(table, p.ac) == t && p.kb == kb;
      assert p in Elems(filtered);
      var k :| 0 <= k < |filtered| && filtered[k] == p;
      assert items[k] in items;
    }
  }

  /** Every pair's target has a group. */
  lemma GroupCovers(filtered: seq<KbAc>, table: seq<(string, Field)>,
                    items: seq<Attributed>, g: seq<(Option<string>, seq<string>)>, p: KbAc) returns (k: nat)
    requires p in filtered
    requires |items| == |filtered|
    requires forall k :: 0 <= k < |filtered| ==> items[k] == Attributed(filtered[k], Owner(table, filtered[k].ac))
    requires forall t :: Get(g, t) == if KbsFor(items, t) == [] then None else Some(KbsFor(items, t))
    ensures k < |g| && g[k].0 == Owner(table, p.ac)
  {
    var t := Owner(table, p.ac);
    var n :| 0 <= n < |filtered| && filtered[n] == p;
    KbsForElems(items, t);
    assert items[n] in items;
    assert p.kb in Elems(KbsFor(items, t));
    assert t in Keys(g);
    k :| 0 <= k < |g| && Keys(g)[k] == t;
  }

  // ---------------------------------------------------------------------
  // The whole run
  // ---------------------------------------------------------------------

  /** The exceptions that end `run_async_tasks`: one from the scan of the
      target-download file, the KeyError of `get_tasks` (the position of
      the record without "uniprot_ac"), one raised by a job submission, or
      one raised during the fetch. */
  datatype RunError = ScanFailed(scan: ScanError) | NoAccession(record: nat) | SubmitFailed | FetchFailed

  /** Every record carries "uniprot_ac". */
  predicate AllHaveAc(recs: seq<TargetAc>)
  {
    forall i :: 0 <= i < |recs| ==> recs[i].ac.Some?
  }

  /** `get_tasks` consumes the `get_uniprot_ac` generator lazily: each
      record is read as soon as it is yielded, so a record without
      "uniprot_ac" raises its KeyError before the later rows are scanned.
      This is the scan over a prefix of the rows with that check folded
      in. */
  function LazyScan(rows: seq<Row>): Result<AcScan, RunError>
  {
    if rows == [] then Ok(AcScan(None, []))
    else
      var n := |rows| - 1;
      match LazyScan(rows[..n])
      case Err(e) => Err(e)
      case Ok(st) =>
        match AcStep(st, rows[n], n)
        case Err(e) => Err(ScanFailed(e))
        case Ok(next) =>
          if |next.yielded| > |st.yielded| && next.yielded[|next.yielded| - 1].ac.None?
          then Err(NoAccession(|st.yielded|))
          else Ok(next)
  }

  /** One step of the scan yields at most one record and keeps the earlier
      ones. */
  lemma AcStepExtends(st: AcScan, row: Row, i: nat)
    requires AcStep(st, row, i).Ok?
    ensures var y := AcStep(st, row, i).value.yielded;
      y == st.yielded || (|y| == |st.yielded| + 1 && y[..|st.yielded|] == st.yielded)
  {
  }

  /** The lazy reading fails exactly when the scan fails or some record
      lacks "uniprot_ac", and otherwise sees the records of the scan. A
      scan error is reported only when every record yielded before it has
      "uniprot_ac"; when the whole scan succeeds, the KeyError names the
      first record without it, as `get_tasks` over the finished list
      would. */
  lemma {:induction false} LazyScanSpec(rows: seq<Row>)
    ensures LazyScan(rows).Ok? <==> ScanAc(rows).Ok? && AllHaveAc(ScanAc(rows).value.yielded)
    ensures LazyScan(rows).Ok? ==> LazyScan(rows).value == ScanAc(rows).value
    ensures LazyScan(rows).Err? && LazyScan(rows).error.ScanFailed? ==>
              ScanAc(rows) == Err(LazyScan(rows).error.scan)
    ensures LazyScan(rows).Err? ==> LazyScan(rows).error.ScanFailed? || LazyScan(rows).error.NoAccession?
    ensures ScanAc(rows).Ok? && !AllHaveAc(ScanAc(rows).value.yielded) ==>
              var y := ScanAc(rows).value.yielded;
              && LazyScan(rows).Err? && LazyScan(rows).error.NoAccession?
              && var k := LazyScan(rows).error.record;
                 k < |y| && y[k].ac.None? && forall j :: 0 <= j < k ==> y[j].ac.Some?
  {
    if rows != [] {
      var n := |rows| - 1;
      var pre := rows[..n];
      LazyScanSpec(pre);
      if ScanAc(pre).Ok? {
        var st := ScanAc(pre).value;
        var step := AcStep(st, rows[n], n);
        if step.Ok? {
          AcStepExtends(st, rows[n], n);
          var y := step.value.yielded;
          if y != st.yielded {
            assert forall j :: 0 <= j < |st.yielded| ==> y[j] == st.yielded[j];
          }
        }
      }
    }
  }

  lemma {:induction false} LazyErrSticks(rows: seq<Row>, n: nat)
    requires n <= |rows| && LazyScan(rows[..n]).Err?
    ensures LazyScan(rows) == LazyScan(rows[..n])
    decreases |rows| - n
  {
    if n < |rows| {
      assert rows[..n + 1][..n] == rows[..n];
      LazyErrSticks(rows, n + 1);
    } else {
      assert rows[..n] == rows;
    }
  }

  /** The records as the loop of `get_tasks` receives them from the
      generator, up to the first exception. */
  method ReadAccessions(rows: seq<Row>) returns (r: Result<seq<TargetAc>, RunError>)
    ensures r.Err? <==> LazyScan(rows).Err?
    ensures r.Err? ==> r.error == LazyScan(rows).error
    ensures r.Ok? ==> ScanAc(rows).Ok? && r.value == ScanAc(rows).value.yielded && AllHaveAc(r.value)
  {
    var st := AcScan(None, []);
    var i := 0;
    while i < |rows|
      invariant 0 <= i <= |rows|
      invariant LazyScan(rows[..i]) == Ok(st)
    {
      assert rows[..i + 1][..i] == rows[..i];
      var step := AcStep(st, rows[i], i);
      if step.Err? {
        LazyErrSticks(rows, i + 1);
        return Err(ScanFailed(step.error));
      }
      var next := step.value;
      if |next.yielded| > |st.yielded| && next.yielded[|next.yielded| - 1].ac.None? {
        LazyErrSticks(rows, i + 1);
        return Err(NoAccession(|st.yielded|));
      }
      st := next;
      i := i + 1;
    }
    assert rows[..i] == rows;
    LazyScanSpec(rows);
    r := Ok(st.yielded);
  }

  /** The rows of the example: a target whose UNIPROID value is only a
      parenthesis, followed by a row too short to read. */
  function EarlyKeyErrorRows(): seq<Row>
  {
    [["", "TARGETID", "T1"], ["", "UNIPROID", "(x"], ["x"]]
  }

  /** On these rows the scan alone fails at row 2, but `get_tasks` has
      already raised its KeyError on the record yielded at row 1. */
  lemma EarlyKeyError()
    ensures ScanAc(EarlyKeyErrorRows()) == Err(ShortRow(2))
    ensures LazyScan(EarlyKeyErrorRows()) == Err(NoAccession(0))
  {
    var rows := EarlyKeyErrorRows();
    assert rows[..2][..1] == rows[..1];
    assert rows[..1][..0] == [];
    assert rows[..3][..2] == rows[..2];
    assert rows[..3] == rows;
    var rec := TargetAc("T1", None);
    assert "TARGETID" <= rows[0][1];
    assert !("TARGETID" <= rows[1][1]) by { assert rows[1][1][0] != 'T'; }
    assert IsSubstring("UNIPROID", rows[1][1]) by { assert "UNIPROID" <= rows[1][1]; }
    assert Normalise("(x") == None by {
      var f := "(x";
      assert f[0] == '(' && f[1] == 'x';
      assert !SplitsField(f) && '(' in f;
    }
    assert ScanAc(rows[..1]) == Ok(AcScan(Some(rec), []));
    assert rows[..2][1] == rows[1] && rows[1][2] == "(x";
    assert |rows[1]| == 3;
    assert !StartsWith(rows[1][1], "TARGETID");
    assert IsSubstring("UNIPROID", rows[1][1]);
    assert Normalise(rows[1][2]).None?;
    assert [] + [rec] == [rec];
    assert AcStep(AcScan(Some(rec), []), rows[1], 1) == Ok(AcScan(Some(rec), [rec]));
    assert ScanAc(rows[..2]) == Ok(AcScan(Some(rec), [rec]));
    assert LazyScan(rows[..1]) == Ok(AcScan(Some(rec), []));
  }

  /** The submission replies, each as the values of its dict, in task
      order; `None` when some submission raised, which `asyncio.gather`
      passes on. */
  function Submissions(tasks: seq<string>, submit: string -> Option<seq<string>>): (jobIds: Option<seq<seq<string>>>)
    ensures jobIds.Some? <==> forall i :: 0 <= i < |tasks| ==> submit(tasks[i]).Some?
    ensures jobIds.Some? ==>
              |jobIds.value| == |tasks| && forall i :: 0 <= i < |tasks| ==> jobIds.value[i] == submit(tasks[i]).value
  {
    if forall i :: 0 <= i < |tasks| ==> submit(tasks[i]).Some?
    then Some(seq(|tasks|, i requires 0 <= i < |tasks| => submit(tasks[i]).value))
    else None
  }

  /** One more successful submission adds its reply. */
  lemma SubmissionsStep(tasks: seq<string>, i: nat, submit: string -> Option<seq<string>>, jobIds: seq<seq<string>>)
    requires i < |tasks| && submit(tasks[i]).Some?
    requires Submissions(tasks[..i], submit) == Some(jobIds)
    ensures Submissions(tasks[..i + 1], submit) == Some(jobIds + [submit(tasks[i]).value])
  {
    var pre, post := tasks[..i], tasks[..i + 1];
    assert forall j :: 0 <= j < i ==> post[j] == pre[j] && submit(pre[j]).Some?;
    assert post[i] == tasks[i];
    var got := Submissions(post, submit);
    assert got.Some?;
    assert got.value == jobIds + [submit(tasks[i]).value];
  }

  /** `run_async_tasks`: submit one job per distinct accession while the
      file is scanned (`submit` gives the values of each reply, `None` when
      the submission raises), fetch the results (`service` answers each job
      id), scan the file again and aggregate. `tasks` are the submitted
      accessions and `mapped` the fetched pairs. When the file reads
      cleanly and every submission succeeds, the run succeeds exactly when
      the fetch raises nothing. */
  method RunAsyncTasks(rows: seq<Row>, submit: string -> Option<seq<string>>, service: string -> Reply)
    returns (tasks: seq<string>, mapped: seq<KbAc>, r: Result<seq<Resolved>, RunError>)
    ensures LazyScan(rows).Err? ==> r == Err(LazyScan(rows).error)
    ensures ScanAc(rows).Ok? && !AllHaveAc(ScanAc(rows).value.yielded) ==>
              var y := ScanAc(rows).value.yielded;
              && r.Err? && r.error.NoAccession?
              && r.error.record < |y| && y[r.error.record].ac.None?
              && forall j :: 0 <= j < r.error.record ==> y[j].ac.Some?
    ensures LazyScan(rows).Ok? ==>
              && Distinct(tasks) && Elems(tasks) == AllAccessions(LazyScan(rows).value.yielded)
              && (r == Err(SubmitFailed) <==> Submissions(tasks, submit).None?)
    ensures LazyScan(rows).Ok? && Submissions(tasks, submit).Some? ==>
              var h := Harvest(AnswerAll(Batches(Concat(Submissions(tasks, submit).value)), service));
              && mapped == h.pairs
              && (r.Ok? <==> !h.aborted)
              && (r.Err? ==> r == Err(FetchFailed))
    ensures r.Ok? ==>
              && LazyScan(rows).Ok?
              && AcTable(LazyScan(rows).value.yielded).Ok?
              && IsAggregation(r.value, mapped, AcTable(LazyScan(rows).value.yielded).value)
  {
    tasks, mapped := [], [];
    LazyScanSpec(rows);
    var read := ReadAccessions(rows);
    if read.Err? {
      return tasks, mapped, Err(read.error);
    }
    var submitted := GetTasks(read.value);
    if submitted.Err? {
      assert false;
    }
    tasks := submitted.value;
    var jobIds: seq<seq<string>> := [];
    var i := 0;
    while i < |tasks|
      invariant 0 <= i <= |tasks|
      invariant Submissions(tasks[..i], submit) == Some(jobIds)
    {
      var reply := submit(tasks[i]);
      if reply.None? {
        return tasks, mapped, Err(SubmitFailed);
      }
      SubmissionsStep(tasks, i, submit, jobIds);
      jobIds := jobIds + [reply.value];
      i := i + 1;
    }
    assert tasks[..i] == tasks;
    var fetcher := new MappedKbs(jobIds);
    var ok := fetcher.GetMappedKbs(service);
    mapped := fetcher.uniprotAcKb;
    if !ok {
      return tasks, mapped, Err(FetchFailed);
    }
    // The second `get_uniprot_ac()` reads the same rows and yields the
    // same records, which all have "uniprot_ac": neither it nor the dict
    // comprehension can raise.
    var again := GetUniprotAc(rows);
    if again.Err? {
      assert false;
    }
    var acInfo := again.value;
    AcTableErr(acInfo);
    var aggregated := Aggregate(mapped, acInfo);
    if aggregated.Err? {
      assert false;
    }
    r := Ok(aggregated.value);
  }
}
