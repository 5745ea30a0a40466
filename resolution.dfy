/** The identifier-resolution pipeline around the UniProt ID-mapping
    service: the accessions to submit (`UniprotJobIDs.get_tasks`), the
    batched result fetch and its reply classification
    (`MappedUniprotKbs.get_mapped_uniprot_kbs`), and the aggregation of
    (kb, ac) pairs into per-target kb lists (`UniprotMapping.run_async_tasks`).
    The service is a parameter: a submission gives the values of the reply
    dict, a results request gives a decoded `Reply`. */
module Resolution {

  import opened Common
  import opened Strings
  import opened Accessions

  // ---------------------------------------------------------------------
  // Submission: one request per distinct accession
  // ---------------------------------------------------------------------

  /** The accessions a "uniprot_ac" value contributes to the flattened list. */
  function AcItems(v: Field): seq<string>
  {
    match v
    case Many(items) => items
    case One(t) => [t]
  }

  /** Every accession of every record, as a set. */
  function AllAccessions(recs: seq<TargetAc>): set<string>
  {
    set i, a | 0 <= i < |recs| && recs[i].ac.Some? && a in AcItems(recs[i].ac.value) :: a
  }

  /** `get_tasks`: flatten the accession values into one list, then keep one
      copy of each (`set(ac_l)`). A record without "uniprot_ac" raises
      KeyError; `r.error` is its position. The result lists exactly the
      distinct accessions of all records, each once. */
  method GetTasks(recs: seq<TargetAc>) returns (r: Result<seq<string>, nat>)
    ensures r.Err? <==> exists i :: 0 <= i < |recs| && recs[i].ac.None?
    ensures r.Err? ==> r.error < |recs| && recs[r.error].ac.None?
                       && forall j :: 0 <= j < r.error ==> recs[j].ac.Some?
    ensures r.Ok? ==> Distinct(r.value) && Elems(r.value) == AllAccessions(recs)
  {
    var acList: seq<string> := [];
    var i := 0;
    while i < |recs|
      invariant 0 <= i <= |recs|
      invariant forall j :: 0 <= j < i ==> recs[j].ac.Some?
      invariant Elems(acList) == AllAccessions(recs[..i])
    {
      if recs[i].ac.None? {
        return Err(i);
      }
      var items := AcItems(recs[i].ac.value);
      ghost var before := acList;
      var k := 0;
      while k < |items|
        invariant 0 <= k <= |items|
        invariant acList == before + items[..k]
      {
        acList := acList + [items[k]];
        k := k + 1;
      }
      assert items[..k] == items;
      AllAccessionsStep(recs, i);
      i := i + 1;
    }
    assert recs[..i] == recs;
    var id := (a: string) => a;
    var unique := DedupBy(acList, id);
    UniqueElems(acList, unique, id);
    r := Ok(unique);
  }

  lemma AllAccessionsStep(recs: seq<TargetAc>, i: nat)
    requires i < |recs| && recs[i].ac.Some?
    ensures AllAccessions(recs[..i + 1]) == AllAccessions(recs[..i]) + Elems(AcItems(recs[i].ac.value))
  {
    var pre, pre1 := recs[..i], recs[..i + 1];
    forall a | a in AllAccessions(pre1)
      ensures a in AllAccessions(pre) + Elems(AcItems(recs[i].ac.value))
    {
      var j :| 0 <= j < |pre1| && pre1[j].ac.Some? && a in AcItems(pre1[j].ac.value);
      if j < i { assert pre[j] == pre1[j]; }
    }
    forall a | a in AllAccessions(pre) ensures a in AllAccessions(pre1) {
      var j :| 0 <= j < |pre| && pre[j].ac.Some? && a in AcItems(pre[j].ac.value);
      assert pre1[j] == pre[j];
    }
    forall a | a in Elems(AcItems(recs[i].ac.value)) ensures a in AllAccessions(pre1) {
      assert pre1[i] == recs[i];
    }
  }

  // ---------------------------------------------------------------------
  // Fetch: batches of ten requests, classification of each reply
  // ---------------------------------------------------------------------

  const BatchSize: nat := 10

  /** `[tasks[i : i + 10] for i in range(0, len(tasks), 10)]` */
  function Batches<T>(tasks: seq<T>): seq<seq<T>>
    decreases |tasks|
  {
    if tasks == [] then []
    else if |tasks| <= BatchSize then [tasks]
    else [tasks[..BatchSize]] + Batches(tasks[BatchSize..])
  }

  /** Batching preserves the order and loses nothing; every batch has one to
      ten tasks, only the last may have fewer than ten, and there are
      ceil(n / 10) batches. */
  lemma {:induction false} BatchesSpec<T>(tasks: seq<T>)
    ensures Concat(Batches(tasks)) == tasks
    ensures forall k :: 0 <= k < |Batches(tasks)| ==> 0 < |Batches(tasks)[k]| <= BatchSize
    ensures forall k :: 0 <= k < |Batches(tasks)| - 1 ==> |Batches(tasks)[k]| == BatchSize
    ensures |Batches(tasks)| == (|tasks| + BatchSize - 1) / BatchSize
    decreases |tasks|
  {
    if |tasks| > BatchSize {
      var rest := tasks[BatchSize..];
      BatchesSpec(rest);
      var bs := Batches(tasks);
      assert bs[1..] == Batches(rest);
      assert tasks == tasks[..BatchSize] + rest;
      forall k | 0 <= k < |bs| ensures 0 < |bs[k]| <= BatchSize {
        if k > 0 { assert bs[k] == Batches(rest)[k - 1]; }
      }
      forall k | 0 <= k < |bs| - 1 ensures |bs[k]| == BatchSize {
        if k > 0 { assert bs[k] == Batches(rest)[k - 1]; }
      }
    }
  }

  /** The slicing loop of `get_mapped_uniprot_kbs`. */
  method SliceBatches<T>(tasks: seq<T>) returns (batches: seq<seq<T>>)
    ensures batches == Batches(tasks)
    ensures Concat(batches) == tasks
    ensures forall k :: 0 <= k < |batches| ==> 0 < |batches[k]| <= BatchSize
    ensures forall k :: 0 <= k < |batches| - 1 ==> |batches[k]| == BatchSize
    ensures |batches| == (|tasks| + BatchSize - 1) / BatchSize
  {
    batches := [];
    var i := 0;
    while i < |tasks|
      invariant 0 <= i <= |tasks|
      invariant batches + Batches(tasks[i..]) == Batches(tasks)
      decreases |tasks| - i
    {
      var j := if i + BatchSize <= |tasks| then i + BatchSize else |tasks|;
      var rest := tasks[i..];
      if |rest| > BatchSize {
        assert rest[..BatchSize] == tasks[i..j];
        assert rest[BatchSize..] == tasks[j..];
      } else {
        assert rest == tasks[i..j];
        assert tasks[j..] == [];
      }
      batches := batches + [tasks[i..j]];
      i := j;
    }
    assert tasks[i..] == [];
    BatchesSpec(tasks);
  }

  /** One element of a results reply: `results[k]["from"]` and
      `results[k]["to"]["primaryAccession"]`, each `None` when a key on the
      way to it is missing. */
  datatype Hit = Hit(from: Option<string>, primaryAccession: Option<string>)

  /** Both keys the fetcher reads from a hit are there. */
  predicate Complete(h: Hit)
  {
    h.from.Some? && h.primaryAccession.Some?
  }

  /** What one results request gives: a decoded JSON body (whether it has a
      "messages" key, whether it has a "url" key, and its "results" list if
      it has that key), a connection error while the body is read (caught:
      the fetcher sleeps and goes on with the next reply), or a connection
      error of the request itself, which surfaces from `asyncio.gather`
      outside the try block. */
  datatype Reply =
    | Body(hasMessages: bool, hasUrl: bool, results: Option<seq<Hit>>)
    | ReadFailed
    | RequestFailed

  /** The dict `{"uniprot_kb": kb, "uniprot_ac": ac}` the fetcher appends. */
  datatype KbAc = KbAc(kb: string, ac: string)

  /** What one reply contributes: a pair, nothing, or a KeyError, which
      neither `except IndexError` nor the connection-error handler catches:
      a "messages" body without "url", a body with neither "messages" nor
      "results", or a first hit without "from", "to" or "primaryAccession". */
  datatype Contribution = Mapped(pair: KbAc) | Nothing | KeyMissing

  /** The per-reply branch of `get_mapped_uniprot_kbs`. */
  function Classify(r: Reply): (c: Contribution)
    requires !r.RequestFailed?
    ensures c.Mapped? <==> r.Body? && !r.hasMessages && r.results.Some? && r.results.value != []
                           && Complete(r.results.value[0])
    ensures c.Mapped? ==> c.pair == KbAc(r.results.value[0].primaryAccession.value,
                                         r.results.value[0].from.value)
    ensures c.KeyMissing? <==>
              r.Body? && (if r.hasMessages then !r.hasUrl
                          else r.results.None? || (r.results.value != [] && !Complete(r.results.value[0])))
  {
    match r
    case ReadFailed => Nothing
    case Body(hasMessages, hasUrl, results) =>
      if hasMessages then (if hasUrl then Nothing else KeyMissing)
      else if results.None? then KeyMissing
      else if results.value == [] then Nothing
      else
        var first := results.value[0];
        if first.from.None? || first.primaryAccession.None? then KeyMissing
        else Mapped(KbAc(first.primaryAccession.value, first.from.value))
  }

  /** The pairs collected so far, and whether an exception ended the run. */
  datatype Fetched = Fetched(pairs: seq<KbAc>, aborted: bool)

  /** The inner loop over the replies of one gathered batch. */
  function HarvestBatch(replies: seq<Reply>): Fetched
    requires forall r :: r in replies ==> !r.RequestFailed?
  {
    if replies == [] then Fetched([], false)
    else
      match Classify(replies[0])
      case KeyMissing => Fetched([], true)
      case Nothing => HarvestBatch(replies[1..])
      case Mapped(p) =>
        var rest := HarvestBatch(replies[1..]);
        Fetched([p] + rest.pairs, rest.aborted)
  }

  /** Some request of the batch failed to connect. */
  predicate HasFailedRequest(replies: seq<Reply>)
  {
    exists r :: r in replies && r.RequestFailed?
  }

  /** The outer loop over the batches: a failed request aborts before any
      reply of its batch is read. */
  function Harvest(batches: seq<seq<Reply>>): Fetched
  {
    if batches == [] then Fetched([], false)
    else if HasFailedRequest(batches[0]) then Fetched([], true)
    else
      var first := HarvestBatch(batches[0]);
      if first.aborted then first
      else
        var rest := Harvest(batches[1..]);
        Fetched(first.pairs + rest.pairs, rest.aborted)
  }

  /** The reference for a run without exceptions: the pair of every reply
      with a non-empty "results" list and no "messages", in order. */
  function MappedPairs(replies: seq<Reply>): seq<KbAc>
    requires forall r :: r in replies ==> !r.RequestFailed?
  {
    if replies == [] then []
    else
      (if Classify(replies[0]).Mapped? then [Classify(replies[0]).pair] else [])
      + MappedPairs(replies[1..])
  }

  /** The replies of a run that raises nothing. */
  predicate Clean(replies: seq<Reply>)
  {
    forall r :: r in replies ==> !r.RequestFailed? && !Classify(r).KeyMissing?
  }

  lemma {:induction false} MappedPairsAppend(a: seq<Reply>, b: seq<Reply>)
    requires forall r :: r in a + b ==> !r.RequestFailed?
    ensures MappedPairs(a + b) == MappedPairs(a) + MappedPairs(b)
  {
    if a == [] {
      assert a + b == b;
    } else {
      assert (a + b)[0] == a[0];
      assert (a + b)[1..] == a[1..] + b;
      assert forall r :: r in a[1..] + b ==> r in a + b;
      MappedPairsAppend(a[1..], b);
      var h := if Classify(a[0]).Mapped? then [Classify(a[0]).pair] else [];
      assert MappedPairs(a + b) == h + (MappedPairs(a[1..]) + MappedPairs(b));
      AppendAssoc(h, MappedPairs(a[1..]), MappedPairs(b));
    }
  }

  lemma {:induction false} HarvestBatchClean(replies: seq<Reply>)
    requires Clean(replies)
    ensures HarvestBatch(replies) == Fetched(MappedPairs(replies), false)
  {
    if replies != [] {
      assert Clean(replies[1..]) by {
        forall r | r in replies[1..] ensures r in replies { }
      }
      HarvestBatchClean(replies[1..]);
    }
  }

  /** Without exceptions, batching changes nothing: the fetched pairs are
      those of the replies in task order, whatever the batches. */
  lemma {:induction false} HarvestClean(batches: seq<seq<Reply>>)
    requires Clean(Concat(batches))
    ensures Harvest(batches) == Fetched(MappedPairs(Concat(batches)), false)
  {
    if batches != [] {
      assert Concat(batches) == batches[0] + Concat(batches[1..]);
      assert Clean(batches[0]) && Clean(Concat(batches[1..])) by {
        forall r | r in batches[0] ensures r in Concat(batches) { }
        forall r | r in Concat(batches[1..]) ensures r in Concat(batches) { }
      }
      HarvestBatchClean(batches[0]);
      HarvestClean(batches[1..]);
      MappedPairsAppend(batches[0], Concat(batches[1..]));
    }
  }

  /** A failed request in batch `k` ends the run with exactly the pairs of
      the earlier batches: no later batch contributes. */
  lemma {:induction false} HarvestRequestFailure(batches: seq<seq<Reply>>, k: nat)
    requires k < |batches| && Clean(Concat(batches[..k]))
    requires HasFailedRequest(batches[k])
    ensures Harvest(batches) == Fetched(MappedPairs(Concat(batches[..k])), true)
  {
    if k == 0 {
      assert batches[..0] == [];
    } else {
      assert batches[..k] == [batches[0]] + batches[1..][..k - 1];
      ConcatAppend([batches[0]], batches[1..][..k - 1]);
      var pre := Concat(batches[1..][..k - 1]);
      assert Concat(batches[..k]) == batches[0] + pre;
      assert Clean(batches[0]) && Clean(pre) by {
        forall r | r in batches[0] ensures r in Concat(batches[..k]) { }
        forall r | r in pre ensures r in Concat(batches[..k]) { }
      }
      assert !HasFailedRequest(batches[0]);
      HarvestBatchClean(batches[0]);
      HarvestRequestFailure(batches[1..], k - 1);
      MappedPairsAppend(batches[0], pre);
    }
  }

  /** Every fetched pair is the first hit of some reply, and there are no
      more pairs than replies. */
  lemma {:induction false} HarvestBatchSource(replies: seq<Reply>)
    requires forall r :: r in replies ==> !r.RequestFailed?
    ensures |HarvestBatch(replies).pairs| <= |replies|
    ensures forall p :: p in HarvestBatch(replies).pairs ==>
              exists r :: r in replies && Classify(r) == Mapped(p)
  {
    if replies != [] {
      HarvestBatchSource(replies[1..]);
      forall p | p in HarvestBatch(replies).pairs
        ensures exists r :: r in replies && Classify(r) == Mapped(p)
      {
        if p !in HarvestBatch(replies[1..]).pairs {
          assert Classify(replies[0]) == Mapped(p);
        } else {
          var r :| r in replies[1..] && Classify(r) == Mapped(p);
          assert r in replies;
        }
      }
    }
  }

  lemma {:induction false} HarvestSource(batches: seq<seq<Reply>>)
    ensures |Harvest(batches).pairs| <= |Concat(batches)|
    ensures forall p :: p in Harvest(batches).pairs ==>
              exists r :: r in Concat(batches) && !r.RequestFailed? && Classify(r) == Mapped(p)
  {
    if batches != [] && !(HasFailedRequest(batches[0])) {
      assert Concat(batches) == batches[0] + Concat(batches[1..]);
      HarvestBatchSource(batches[0]);
      HarvestSource(batches[1..]);
    }
  }

  /** The requests of one batch, answered by the service. */
  function Answer(batch: seq<string>, service: string -> Reply): (replies: seq<Reply>)
    ensures |replies| == |batch| && forall k :: 0 <= k < |batch| ==> replies[k] == service(batch[k])
  {
    seq(|batch|, k requires 0 <= k < |batch| => service(batch[k]))
  }

  function AnswerAll(batches: seq<seq<string>>, service: string -> Reply): (r: seq<seq<Reply>>)
    ensures |r| == |batches| && forall k :: 0 <= k < |batches| ==> r[k] == Answer(batches[k], service)
  {
    seq(|batches|, k requires 0 <= k < |batches| => Answer(batches[k], service))
  }

  /** `MappedUniprotKbs`: the submission replies (each as the values of its
      dict) and the list of (kb, ac) pairs the fetch appends to. */
  class MappedKbs {
    var jobIds: seq<seq<string>>
    var uniprotAcKb: seq<KbAc>

    constructor (jobIds: seq<seq<string>>)
      ensures this.jobIds == jobIds && uniprotAcKb == []
    {
      this.jobIds := jobIds;
      uniprotAcKb := [];
    }

    /** `get_mapped_uniprot_kbs`: one request per value of each submission
        reply, sent in batches of ten; the pairs of the replies are
        appended in order. `ok` is false when an exception ended the run. */
    method GetMappedKbs(service: string -> Reply) returns (ok: bool)
      modifies this
      ensures jobIds == old(jobIds)
      ensures var h := Harvest(AnswerAll(Batches(Concat(jobIds)), service));
        uniprotAcKb == old(uniprotAcKb) + h.pairs && ok == !h.aborted
    {
      var tasks := Concat(jobIds);
      var batches := SliceBatches(tasks);
      ghost var all := AnswerAll(batches, service);
      ghost var done: seq<KbAc> := [];
      ghost var h := Harvest(all);
      var b := 0;
      HarvestFromStart(all);
      while b < |batches|
        invariant 0 <= b <= |batches| && jobIds == old(jobIds)
        invariant uniprotAcKb == old(uniprotAcKb) + done
        invariant h == JoinFetched(done, Harvest(all[b..]))
      {
        var replies := Answer(batches[b], service);
        assert replies == all[b];
        if HasFailedRequest(replies) {
          HarvestFailedRequest(all, b, done, h);
          return false;
        }
        ghost var got := HarvestBatch(replies).pairs;
        ghost var pre := uniprotAcKb;
        var aborted := CollectBatch(replies);
        assert uniprotAcKb == pre + got;
        AppendAssoc(old(uniprotAcKb), done, got);
        HarvestAdvance(all, b, done, h);
        done := done + got;
        if aborted {
          return false;
        }
        b := b + 1;
      }
      assert all[b..] == [];
      ok := true;
    }

    /** The loop over the replies of one gathered batch. */
    method CollectBatch(replies: seq<Reply>) returns (aborted: bool)
      requires forall r :: r in replies ==> !r.RequestFailed?
      modifies this
      ensures jobIds == old(jobIds)
      ensures uniprotAcKb == old(uniprotAcKb) + HarvestBatch(replies).pairs
      ensures aborted == HarvestBatch(replies).aborted
    {
      var k := 0;
      ghost var got: seq<KbAc> := [];
      while k < |replies|
        invariant 0 <= k <= |replies| && jobIds == old(jobIds)
        invariant uniprotAcKb == old(uniprotAcKb) + got
        invariant HarvestBatch(replies) == JoinFetched(got, HarvestBatch(replies[k..]))
      {
        var c := Classify(replies[k]);
        assert replies[k..][0] == replies[k] && replies[k..][1..] == replies[k + 1..];
        ghost var rest := HarvestBatch(replies[k + 1..]);
        if c.KeyMissing? {
          return true;
        }
        if c.Mapped? {
          assert HarvestBatch(replies[k..]) == Fetched([c.pair] + rest.pairs, rest.aborted);
          AppendAssoc(got, [c.pair], rest.pairs);
          uniprotAcKb := uniprotAcKb + [c.pair];
          got := got + [c.pair];
        } else {
          assert HarvestBatch(replies[k..]) == rest;
        }
        k := k + 1;
      }
      assert replies[k..] == [];
      aborted := false;
    }
  }

  /** Pairs already collected, followed by what the rest of a batch gives. */
  function JoinFetched(done: seq<KbAc>, rest: Fetched): Fetched
  {
    Fetched(done + rest.pairs, rest.aborted)
  }

  lemma HarvestFromStart(all: seq<seq<Reply>>)
    ensures Harvest(all) == JoinFetched([], Harvest(all[0..]))
  {
    assert all[0..] == all;
  }

  /** A batch with a failed request ends the run with what came before. */
  lemma HarvestFailedRequest(all: seq<seq<Reply>>, b: nat, done: seq<KbAc>, h: Fetched)
    requires b < |all| && HasFailedRequest(all[b])
    requires h == JoinFetched(done, Harvest(all[b..]))
    ensures h == Fetched(done, true)
  {
    assert all[b..][0] == all[b];
    assert done + [] == done;
  }

  /** A batch without a failed request adds its pairs; if it raised, the run
      ends there. */
  lemma HarvestAdvance(all: seq<seq<Reply>>, b: nat, done: seq<KbAc>, h: Fetched)
    requires b < |all| && !HasFailedRequest(all[b])
    requires h == JoinFetched(done, Harvest(all[b..]))
    ensures HarvestBatch(all[b]).aborted ==>
              h == Fetched(done + HarvestBatch(all[b]).pairs, true)
    ensures !HarvestBatch(all[b]).aborted ==>
              h == JoinFetched(done + HarvestBatch(all[b]).pairs, Harvest(all[b + 1..]))
  {
    var xs := all[b..];
    assert xs[0] == all[b] && xs[1..] == all[b + 1..];
    HarvestUnfold(xs);
    var first := HarvestBatch(all[b]);
    var next := Harvest(all[b + 1..]);
    assert (done + first.pairs) + next.pairs == done + (first.pairs + next.pairs);
  }

  lemma HarvestUnfold(xs: seq<seq<Reply>>)
    requires xs != [] && !HasFailedRequest(xs[0])
    ensures Harvest(xs) == if HarvestBatch(xs[0]).aborted then HarvestBatch(xs[0])
                           else JoinFetched(HarvestBatch(xs[0]).pairs, Harvest(xs[1..]))
  {
  }
}
