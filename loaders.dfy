/** The drug-target loader, `load_drug_target`: each row of the mapping
    sheet becomes an interaction between a drug node and a target node,
    rows whose MOA is "." are dropped, and interactions are deduplicated by
    `_id`, keeping the first. */
module Loaders {

  import opened Common
  import opened Strings
  import opened Targets
  import opened DrugIds

  /** `{d["ttd_target_id"]: d for d in get_target_info(...)}` needs every
      yielded value to be a record: a None raises TypeError. */
  function TargetRecords(ys: seq<Option<TargetInfo>>): (r: Result<seq<TargetInfo>, Exception>)
    ensures r.Err? <==> exists k :: 0 <= k < |ys| && ys[k].None?
    ensures r.Ok? ==> |r.value| == |ys| && forall k :: 0 <= k < |ys| ==> ys[k] == Some(r.value[k])
  {
    if ys == [] then Ok([])
    else
      match TargetRecords(ys[..|ys| - 1])
      case Err(e) => Err(e)
      case Ok(ts) =>
        if ys[|ys| - 1].None? then Err(TypeError) else Ok(ts + [ys[|ys| - 1].value])
  }

  function TargetIdOf(t: TargetInfo): string
  {
    t.targetId
  }

  /** `target_info_d[id]`: the last record of `id`. */
  function TargetOf(ts: seq<TargetInfo>, id: string): Option<TargetInfo>
  {
    LastWith(ts, TargetIdOf, id)
  }

  /** The object node's id: the first UniProt kb when the target has kbs
      (IndexError when that list is empty), else the TTD target id. */
  function ObjectId(ts: seq<TargetInfo>, targetId: string): Result<string, Exception>
  {
    match TargetOf(ts, targetId)
    case Some(t) =>
      if t.uniprotkb.Some? then
        if t.uniprotkb.value == [] then Err(IndexError) else Ok("UniProtKB:" + t.uniprotkb.value[0])
      else Ok("ttd_target_id:" + targetId)
    case None => Ok("ttd_target_id:" + targetId)
  }

  /** The subject node's id: the ChEBI id when the drug has one, else the
      TTD drug id. The PubChem branch tests a key for being both present and
      absent, so it is never taken and has no counterpart here. */
  function SubjectId(drugs: seq<DrugRef>, drugId: string): string
  {
    match DrugOf(drugs, drugId)
    case Some(d) => if d.chebi.Some? then "CHEBI:" + d.chebi.value else "ttd_drug_id:" + drugId
    case None => "ttd_drug_id:" + drugId
  }

  /** `node_id.split(":")[1]`, or IndexError without ":". */
  function IdPart(nodeId: string): Result<string, Exception>
  {
    match Piece(nodeId, ':', 1)
    case None => Err(IndexError)
    case Some(p) => Ok(p)
  }

  /** Behind a prefix whose only ":" is its last character, the id part is
      the value up to its own first ":" (the whole value when it has none),
      and never an error. */
  lemma IdPartOf(prefix: string, v: string)
    requires prefix != [] && prefix[|prefix| - 1] == ':' && ':' !in prefix[..|prefix| - 1]
    ensures IdPart(prefix + v) == Ok(SplitBy(v, {':'})[0])
    ensures ':' !in v ==> IdPart(prefix + v) == Ok(v)
  {
    var p := prefix[..|prefix| - 1];
    assert prefix + v == p + [':'] + v;
    IdPartAfter(p, v);
  }

  lemma IdPartAfter(p: string, v: string)
    requires ':' !in p
    ensures IdPart(p + [':'] + v) == Ok(SplitBy(v, {':'})[0])
    ensures ':' !in v ==> IdPart(p + [':'] + v) == Ok(v)
  {
    PieceAfter(p, ':', v);
  }

  /** A row of the drug-target mapping sheet. */
  datatype MappingRow = MappingRow(targetId: string, drugId: string, highestStatus: string, moa: string)

  /** The output document, reduced to what the loader computes: its `_id`,
      the two node ids, and the association's trial status and MOA. */
  datatype Interaction = Interaction(id: string, subject: string, object: string, trialStatus: string, moa: string)

  function IdOf(x: Interaction): string
  {
    x.id
  }

  /** The document one row builds, object node first as the loader does;
      the `_id` joins the two id parts with "_interacts_with_". */
  function InteractionOf(drugs: seq<DrugRef>, ts: seq<TargetInfo>, row: MappingRow): Result<Interaction, Exception>
  {
    match ObjectId(ts, row.targetId)
    case Err(e) => Err(e)
    case Ok(obj) =>
      var subj := SubjectId(drugs, row.drugId);
      match IdPart(subj)
      case Err(e) => Err(e)
      case Ok(s) =>
        match IdPart(obj)
        case Err(e) => Err(e)
        case Ok(o) => Ok(Interaction(s + "_interacts_with_" + o, subj, obj, Lower(row.highestStatus), Lower(row.moa)))
  }

  /** Building a document fails only on a target whose kb list is empty. */
  lemma InteractionOfErr(drugs: seq<DrugRef>, ts: seq<TargetInfo>, row: MappingRow)
    ensures InteractionOf(drugs, ts, row).Err? <==>
              TargetOf(ts, row.targetId).Some? && TargetOf(ts, row.targetId).value.uniprotkb == Some([])
  {
    SubjectIdPart(drugs, row.drugId);
    ObjectIdPart(ts, row.targetId);
  }

  /** The subject id always has an id part. */
  lemma SubjectIdPart(drugs: seq<DrugRef>, drugId: string)
    ensures IdPart(SubjectId(drugs, drugId)).Ok?
  {
    var d := DrugOf(drugs, drugId);
    if d.Some? && d.value.chebi.Some? {
      IdPartOf("CHEBI:", d.value.chebi.value);
    } else {
      IdPartOf("ttd_drug_id:", drugId);
    }
  }

  /** The object id, when there is one, has an id part. */
  lemma ObjectIdPart(ts: seq<TargetInfo>, targetId: string)
    ensures ObjectId(ts, targetId).Err? <==>
              TargetOf(ts, targetId).Some? && TargetOf(ts, targetId).value.uniprotkb == Some([])
    ensures ObjectId(ts, targetId).Ok? ==> IdPart(ObjectId(ts, targetId).value).Ok?
  {
    var t := TargetOf(ts, targetId);
    if t.Some? && t.value.uniprotkb.Some? && t.value.uniprotkb.value != [] {
      IdPartOf("UniProtKB:", t.value.uniprotkb.value[0]);
    } else {
      IdPartOf("ttd_target_id:", targetId);
    }
  }

  /** The `_id` of a drug with a ChEBI id and a target with kbs, all free of
      ":", is "<chebi>_interacts_with_<first kb>". */
  lemma InteractionIdChebi(drugs: seq<DrugRef>, ts: seq<TargetInfo>, row: MappingRow)
    requires DrugOf(drugs, row.drugId).Some? && DrugOf(drugs, row.drugId).value.chebi.Some?
    requires ':' !in DrugOf(drugs, row.drugId).value.chebi.value
    requires TargetOf(ts, row.targetId).Some? && TargetOf(ts, row.targetId).value.uniprotkb.Some?
    requires TargetOf(ts, row.targetId).value.uniprotkb.value != []
    requires ':' !in TargetOf(ts, row.targetId).value.uniprotkb.value[0]
    ensures InteractionOf(drugs, ts, row).Ok?
    ensures InteractionOf(drugs, ts, row).value.id ==
              DrugOf(drugs, row.drugId).value.chebi.value + "_interacts_with_" + TargetOf(ts, row.targetId).value.uniprotkb.value[0]
  {
    IdPartOf("CHEBI:", DrugOf(drugs, row.drugId).value.chebi.value);
    IdPartOf("UniProtKB:", TargetOf(ts, row.targetId).value.uniprotkb.value[0]);
  }

  /** The `_id` of a drug and a target the lookups do not know, with ids
      free of ":", is "<drug id>_interacts_with_<target id>". */
  lemma InteractionIdUnknown(drugs: seq<DrugRef>, ts: seq<TargetInfo>, row: MappingRow)
    requires DrugOf(drugs, row.drugId).None? && TargetOf(ts, row.targetId).None?
    requires ':' !in row.drugId && ':' !in row.targetId
    ensures InteractionOf(drugs, ts, row).Ok?
    ensures InteractionOf(drugs, ts, row).value.id == row.drugId + "_interacts_with_" + row.targetId
  {
    IdPartOf("ttd_drug_id:", row.drugId);
    IdPartOf("ttd_target_id:", row.targetId);
  }

  /** The documents the loop appends, for a prefix of the rows: every row
      builds its document (which may raise), and only rows whose MOA is not
      "." append it. */
  function Interactions(drugs: seq<DrugRef>, ts: seq<TargetInfo>, rows: seq<MappingRow>): Result<seq<Interaction>, Exception>
  {
    if rows == [] then Ok([])
    else
      match Interactions(drugs, ts, rows[..|rows| - 1])
      case Err(e) => Err(e)
      case Ok(out) =>
        var row := rows[|rows| - 1];
        match InteractionOf(drugs, ts, row)
        case Err(e) => Err(e)
        case Ok(x) => Ok(if row.moa != "." then out + [x] else out)
  }

  /** A row is kept iff its MOA is not ".": the documents are exactly those
      of such rows, in row order. */
  predicate IsKept(row: MappingRow)
  {
    row.moa != "."
  }

  function KeptRows(rows: seq<MappingRow>): seq<MappingRow>
  {
    if rows == [] then []
    else KeptRows(rows[..|rows| - 1]) + (if IsKept(rows[|rows| - 1]) then [rows[|rows| - 1]] else [])
  }

  /** When nothing raises, the documents are those of the kept rows, one
      each and in order, and none carries the MOA ".". */
  lemma {:induction false} InteractionsKept(drugs: seq<DrugRef>, ts: seq<TargetInfo>, rows: seq<MappingRow>)
    requires Interactions(drugs, ts, rows).Ok?
    ensures var out := Interactions(drugs, ts, rows).value;
      var kept := KeptRows(rows);
      && |out| == |kept|
      && (forall k :: 0 <= k < |out| ==> InteractionOf(drugs, ts, kept[k]) == Ok(out[k]))
      && (forall k :: 0 <= k < |out| ==> out[k].moa != ".")
  {
    if rows != [] {
      var pre := rows[..|rows| - 1];
      var row := rows[|rows| - 1];
      assert Interactions(drugs, ts, pre).Ok? && InteractionOf(drugs, ts, row).Ok?;
      InteractionsKept(drugs, ts, pre);
      var out0 := Interactions(drugs, ts, pre).value;
      var x := InteractionOf(drugs, ts, row).value;
      var kept0 := KeptRows(pre);
      assert KeptRows(rows) == kept0 + (if IsKept(row) then [row] else []);
      if IsKept(row) {
        assert Interactions(drugs, ts, rows).value == out0 + [x];
        forall k | 0 <= k < |out0| + 1
          ensures InteractionOf(drugs, ts, KeptRows(rows)[k]) == Ok((out0 + [x])[k])
          ensures (out0 + [x])[k].moa != "."
        {
          if k < |out0| {
            assert KeptRows(rows)[k] == kept0[k] && (out0 + [x])[k] == out0[k];
          } else {
            assert KeptRows(rows)[k] == row;
          }
        }
      } else {
        assert Interactions(drugs, ts, rows).value == out0;
        assert KeptRows(rows) == kept0;
      }
    }
  }

  /** Once a prefix raises, the whole loop raises the same exception. */
  lemma {:induction false} InteractionsErrSticks(drugs: seq<DrugRef>, ts: seq<TargetInfo>, rows: seq<MappingRow>, n: nat)
    requires n <= |rows| && Interactions(drugs, ts, rows[..n]).Err?
    ensures Interactions(drugs, ts, rows) == Interactions(drugs, ts, rows[..n])
    decreases |rows| - n
  {
    if n < |rows| {
      assert rows[..n + 1][..n] == rows[..n];
      InteractionsErrSticks(drugs, ts, rows, n + 1);
    } else {
      assert rows[..n] == rows;
    }
  }

  /** `load_drug_target`: build and filter the documents row by row, then
      keep the first document of each `_id`. */
  method LoadDrugTarget(drugs: seq<DrugRef>, ts: seq<TargetInfo>, rows: seq<MappingRow>) returns (r: Result<seq<Interaction>, Exception>)
    ensures r.Err? <==> Interactions(drugs, ts, rows).Err?
    ensures r.Err? ==> r.error == Interactions(drugs, ts, rows).error
    ensures r.Ok? ==> r.value == KeepFirst(Interactions(drugs, ts, rows).value, IdOf)
  {
    var all: seq<Interaction> := [];
    for i := 0 to |rows|
      invariant Interactions(drugs, ts, rows[..i]) == Ok(all)
    {
      assert rows[..i + 1][..i] == rows[..i];
      var x := InteractionOf(drugs, ts, rows[i]);
      if x.Err? {
        InteractionsErrSticks(drugs, ts, rows, i + 1);
        return Err(x.error);
      }
      if rows[i].moa != "." {
        all := all + [x.value];
      }
    }
    assert rows[..|rows|] == rows;
    var filtered := DedupBy(all, IdOf);
    r := Ok(filtered);
  }

  /** The loader emits each `_id` once. */
  lemma LoadDrugTargetUnique(drugs: seq<DrugRef>, ts: seq<TargetInfo>, rows: seq<MappingRow>)
    requires Interactions(drugs, ts, rows).Ok?
    ensures var out := KeepFirst(Interactions(drugs, ts, rows).value, IdOf);
      forall i, j :: 0 <= i < j < |out| ==> out[i].id != out[j].id
  {
    var out := KeepFirst(Interactions(drugs, ts, rows).value, IdOf);
    KeepFirstSpec(Interactions(drugs, ts, rows).value, IdOf);
    forall i, j | 0 <= i < j < |out| ensures out[i].id != out[j].id {
      assert IdOf(out[i]) != IdOf(out[j]);
    }
  }

  /** Each emitted document is the first one built with its `_id`, and none
      carries the MOA ".". */
  lemma LoadDrugTargetFirst(drugs: seq<DrugRef>, ts: seq<TargetInfo>, rows: seq<MappingRow>)
    requires Interactions(drugs, ts, rows).Ok?
    ensures var all := Interactions(drugs, ts, rows).value;
      var out := KeepFirst(all, IdOf);
      forall i :: 0 <= i < |out| ==>
        out[i].moa != "." && exists n :: IsFirstWithKey(all, IdOf, n) && all[n] == out[i]
  {
    var all := Interactions(drugs, ts, rows).value;
    var out := KeepFirst(all, IdOf);
    InteractionsKept(drugs, ts, rows);
    KeepFirstSpec(all, IdOf);
    forall i | 0 <= i < |out|
      ensures out[i].moa != "." && exists n :: IsFirstWithKey(all, IdOf, n) && all[n] == out[i]
    {
      var n :| IsFirstWithKey(all, IdOf, n) && all[n] == out[i];
    }
  }

  /** Every row whose MOA is not "." has its `_id` among the documents. */
  lemma LoadDrugTargetCovers(drugs: seq<DrugRef>, ts: seq<TargetInfo>, rows: seq<MappingRow>)
    requires Interactions(drugs, ts, rows).Ok?
    ensures var out := KeepFirst(Interactions(drugs, ts, rows).value, IdOf);
      forall k :: 0 <= k < |KeptRows(rows)| ==>
        InteractionOf(drugs, ts, KeptRows(rows)[k]).Ok? &&
        exists i :: 0 <= i < |out| && out[i].id == InteractionOf(drugs, ts, KeptRows(rows)[k]).value.id
  {
    var all := Interactions(drugs, ts, rows).value;
    var out := KeepFirst(all, IdOf);
    InteractionsKept(drugs, ts, rows);
    KeepFirstSpec(all, IdOf);
    forall k | 0 <= k < |KeptRows(rows)|
      ensures InteractionOf(drugs, ts, KeptRows(rows)[k]).Ok?
      ensures exists i :: 0 <= i < |out| && out[i].id == InteractionOf(drugs, ts, KeptRows(rows)[k]).value.id
    {
      assert IdOf(all[k]) in KeysOf(all, IdOf);
      var i :| 0 <= i < |out| && IdOf(out[i]) == IdOf(all[k]);
    }
  }
}
