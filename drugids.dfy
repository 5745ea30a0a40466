/** The drug cross-reference scanner, `mapping_drug_id`: it walks the rows
    of the cross-matching file and yields the record of the current drug
    after every non-blank row once a TTDDRUID row has opened one. */
module DrugIds {

  import opened Common
  import opened Strings
  import opened Accessions

  /** The record dict: "ttd_drug_id", and "pubchem_compound" and "chebi"
      when set. */
  datatype DrugRef = DrugRef(drugId: string, pubchem: Option<Field>, chebi: Option<string>)

  /** A blank line of the file: three empty fields. */
  predicate IsBlankRow(row: Row)
  {
    row == ["", "", ""]
  }

  /** The PUBCHCID value: split on ";" and trimmed when it has one, else
      verbatim. */
  function PubchemValue(f: string): (v: Field)
    ensures ';' in f ==> v.Many? && |v.items| == CountIn(f, {';'}) + 1
    ensures ';' !in f ==> v == One(f)
  {
    if ';' in f then
      SplitPieces(f, {';'});
      Many(StripAll(SplitBy(f, {';'})))
    else One(f)
  }

  /** A list of `;`-free ids joined with `;` is read back as the list of
      its trimmed ids. */
  lemma PubchemRoundTrip(xs: seq<string>)
    requires |xs| >= 2 && forall k :: 0 <= k < |xs| ==> ';' !in xs[k]
    ensures PubchemValue(Join(xs, ';')) == Many(StripAll(xs))
  {
    SplitJoin(xs, ';');
    assert Join(xs, ';') == xs[0] + [';'] + Join(xs[1..], ';');
    assert Join(xs, ';')[|xs[0]|] == ';';
  }

  /** The generator's state: the record being built and what was yielded. */
  datatype DrugScan = DrugScan(current: Option<DrugRef>, yielded: seq<DrugRef>)

  /** The record a non-blank row leaves, or the exception it raises. The
      right-hand side of each assignment is evaluated first, so a ChEBI
      field without ":" raises IndexError even when no record exists. */
  function DrugUpdate(cur: Option<DrugRef>, row: Row, i: nat): Result<Option<DrugRef>, ScanError>
    requires !IsBlankRow(row)
  {
    if |row| < 2 then Err(ShortRow(i))
    else if StartsWith(row[1], "TTDDRUID") then
      if |row| < 3 then Err(ShortRow(i)) else Ok(Some(DrugRef(row[2], None, None)))
    else if StartsWith(row[1], "PUBCHCID") then
      if |row| < 3 then Err(ShortRow(i))
      else if cur.None? then Err(NoRecord(i))
      else Ok(Some(cur.value.(pubchem := Some(PubchemValue(row[2])))))
    else if StartsWith(row[1], "ChEBI_ID") then
      if |row| < 3 then Err(ShortRow(i))
      else
        match Piece(row[2], ':', 1)
        case None => Err(NoPiece(i))
        case Some(id) => if cur.None? then Err(NoRecord(i)) else Ok(Some(cur.value.(chebi := Some(id))))
    else Ok(cur)
  }

  /** One iteration of the loop over row number `i`. */
  function DrugStep(st: DrugScan, row: Row, i: nat): Result<DrugScan, ScanError>
  {
    if IsBlankRow(row) then Ok(st)
    else
      match DrugUpdate(st.current, row, i)
      case Err(e) => Err(e)
      case Ok(cur) => Ok(DrugScan(cur, if cur.Some? then st.yielded + [cur.value] else st.yielded))
  }

  /** The scan over a prefix of the rows. */
  function ScanDrugs(rows: seq<Row>): Result<DrugScan, ScanError>
  {
    if rows == [] then Ok(DrugScan(None, []))
    else
      match ScanDrugs(rows[..|rows| - 1])
      case Err(e) => Err(e)
      case Ok(st) => DrugStep(st, rows[|rows| - 1], |rows| - 1)
  }

  /** The identifier of the most recent TTDDRUID row, if any. */
  function LatestDrug(rows: seq<Row>): Option<string>
  {
    if rows == [] then None
    else
      var row := rows[|rows| - 1];
      if |row| >= 3 && !IsBlankRow(row) && StartsWith(row[1], "TTDDRUID") then Some(row[2])
      else LatestDrug(rows[..|rows| - 1])
  }

  /** A record as the scanner builds it: its ChEBI id has no ":" and each
      listed PubChem id is trimmed and free of ";". */
  predicate WellBuilt(r: DrugRef)
  {
    && (r.chebi.Some? ==> ':' !in r.chebi.value)
    && (r.pubchem.Some? && r.pubchem.value.Many? ==>
          forall k :: 0 <= k < |r.pubchem.value.items| ==>
            IsStripped(r.pubchem.value.items[k]) && ';' !in r.pubchem.value.items[k])
  }

  lemma PubchemWellBuilt(f: string)
    ensures PubchemValue(f).Many? ==>
              forall k :: 0 <= k < |PubchemValue(f).items| ==>
                IsStripped(PubchemValue(f).items[k]) && ';' !in PubchemValue(f).items[k]
  {
    if ';' in f {
      var parts := SplitBy(f, {';'});
      SplitPieces(f, {';'});
      forall k | 0 <= k < |parts| ensures ';' !in Strip(parts[k]) {
        assert forall c :: c in Strip(parts[k]) ==> c in parts[k];
      }
    }
  }

  lemma ChebiWellBuilt(f: string)
    requires Piece(f, ':', 1).Some?
    ensures ':' !in Piece(f, ':', 1).value
  {
    var parts := SplitBy(f, {':'});
    SplitPieces(f, {':'});
  }

  /** The record being built belongs to the most recent TTDDRUID row, and
      every record built or yielded is well built. */
  lemma {:induction false} DrugScanInvariant(rows: seq<Row>)
    requires ScanDrugs(rows).Ok?
    ensures var st := ScanDrugs(rows).value;
      && (st.current.Some? <==> LatestDrug(rows).Some?)
      && (st.current.Some? ==> st.current.value.drugId == LatestDrug(rows).value && WellBuilt(st.current.value))
      && (forall k :: 0 <= k < |st.yielded| ==> WellBuilt(st.yielded[k]))
  {
    if rows != [] {
      var pre := rows[..|rows| - 1];
      var row := rows[|rows| - 1];
      DrugScanInvariant(pre);
      var st := ScanDrugs(pre).value;
      assert ScanDrugs(rows) == DrugStep(st, row, |rows| - 1);
      if !IsBlankRow(row) {
        DrugUpdateKeeps(st.current, row, |rows| - 1);
        var cur := DrugUpdate(st.current, row, |rows| - 1).value;
        var ys := if cur.Some? then st.yielded + [cur.value] else st.yielded;
        assert ScanDrugs(rows).value == DrugScan(cur, ys);
        forall k | 0 <= k < |ys| ensures WellBuilt(ys[k]) {
          if k < |st.yielded| { assert ys[k] == st.yielded[k]; }
        }
      }
    }
  }

  /** One non-blank row: a TTDDRUID row opens a fresh record, any other row
      keeps the record's drug, and the record stays well built. */
  lemma DrugUpdateKeeps(cur: Option<DrugRef>, row: Row, i: nat)
    requires !IsBlankRow(row) && DrugUpdate(cur, row, i).Ok?
    requires cur.Some? ==> WellBuilt(cur.value)
    ensures var next := DrugUpdate(cur, row, i).value;
      && (next.Some? ==> WellBuilt(next.value))
      && (|row| >= 3 && StartsWith(row[1], "TTDDRUID") ==> next == Some(DrugRef(row[2], None, None)))
      && (!(|row| >= 3 && StartsWith(row[1], "TTDDRUID")) ==>
            (next.Some? <==> cur.Some?) && (next.Some? ==> next.value.drugId == cur.value.drugId))
  {
    if |row| >= 3 {
      PubchemWellBuilt(row[2]);
      if Piece(row[2], ':', 1).Some? {
        ChebiWellBuilt(row[2]);
      }
    }
  }

  /** One more row: once a record exists, every non-blank row yields it
      exactly once (even a row that changes nothing); blank rows and rows
      before the first TTDDRUID row yield nothing. */
  lemma DrugScanStep(rows: seq<Row>, row: Row)
    requires ScanDrugs(rows).Ok?
    ensures var st := ScanDrugs(rows).value;
      var next := ScanDrugs(rows + [row]);
      && (IsBlankRow(row) ==> next == Ok(st))
      && (!IsBlankRow(row) && next.Ok? ==>
            next.value.yielded == st.yielded + (if next.value.current.Some? then [next.value.current.value] else []))
  {
    assert (rows + [row])[..|rows|] == rows;
  }

  /** `mapping_drug_id`: the loop over the rows. */
  method MappingDrugId(rows: seq<Row>) returns (r: Result<seq<DrugRef>, ScanError>)
    ensures r.Ok? <==> ScanDrugs(rows).Ok?
    ensures r.Ok? ==> r.value == ScanDrugs(rows).value.yielded
    ensures r.Err? ==> r.error == ScanDrugs(rows).error
  {
    var current: Option<DrugRef> := None;
    var out: seq<DrugRef> := [];
    var i := 0;
    while i < |rows|
      invariant 0 <= i <= |rows|
      invariant ScanDrugs(rows[..i]) == Ok(DrugScan(current, out))
    {
      var row := rows[i];
      assert rows[..i + 1][..i] == rows[..i];
      if row != ["", "", ""] {
        var next := DrugUpdate(current, row, i);
        if next.Err? {
          DrugErrSticks(rows, i + 1);
          return Err(next.error);
        }
        current := next.value;
        if current.Some? {
          out := out + [current.value];
        }
      }
      i := i + 1;
    }
    assert rows[..i] == rows;
    r := Ok(out);
  }

  /** Once a prefix fails, the whole scan fails with the same error. */
  lemma {:induction false} DrugErrSticks(rows: seq<Row>, n: nat)
    requires n <= |rows| && ScanDrugs(rows[..n]).Err?
    ensures ScanDrugs(rows) == ScanDrugs(rows[..n])
    decreases |rows| - n
  {
    if n < |rows| {
      assert rows[..n + 1][..n] == rows[..n];
      DrugErrSticks(rows, n + 1);
    } else {
      assert rows[..n] == rows;
    }
  }

  /** `{d["ttd_drug_id"]: d for d in mapping_drug_id(...)}[id]`: the last
      record yielded for `id`. */
  function DrugOf(refs: seq<DrugRef>, id: string): Option<DrugRef>
  {
    LastWith(refs, DrugIdOf, id)
  }

  function DrugIdOf(d: DrugRef): string
  {
    d.drugId
  }
}
