/** The target-information scanner, `get_target_info`: it walks the rows of
    the target-download file and yields the record being built at every
    blank row. The UniProt kbs come from the aggregated resolution output. */
module Targets {

  import opened Common
  import opened Strings
  import opened Accessions
  import opened Aggregation

  /** The record dict: "ttd_target_id", and "uniprotkb", "target_type" and
      "bioclass" when set. */
  datatype TargetInfo = TargetInfo(
    targetId: string,
    uniprotkb: Option<seq<string>>,
    targetType: Option<string>,
    bioclass: Option<string>)

  /** A blank line of the file: five empty fields. */
  predicate IsBlankRow(row: Row)
  {
    row == ["", "", "", "", ""]
  }

  /** `uniprot_dict[id]["uniprot"]` where `uniprot_dict` is
      `{d["ttd_target_id"]: d for d in data}`: the last record of `id`. */
  function UniprotOf(data: seq<Resolved>, id: string): Option<seq<string>>
  {
    match LastWith(data, ResolvedIdOf, Some(id))
    case None => None
    case Some(d) => Some(d.uniprot)
  }

  function ResolvedIdOf(d: Resolved): Option<string>
  {
    d.targetId
  }

  /** The generator's state: the record being built and what was yielded. */
  datatype TargetScan = TargetScan(current: Option<TargetInfo>, yielded: seq<Option<TargetInfo>>)

  /** One iteration of the loop over row number `i`. */
  function TargetStep(data: seq<Resolved>, st: TargetScan, row: Row, i: nat): Result<TargetScan, ScanError>
  {
    if IsBlankRow(row) then Ok(TargetScan(st.current, st.yielded + [st.current]))
    else if |row| < 2 then Err(ShortRow(i))
    else if StartsWith(row[1], "TARGETID") then
      if |row| < 3 then Err(ShortRow(i))
      else Ok(st.(current := Some(TargetInfo(row[2], UniprotOf(data, row[2]), None, None))))
    else if IsSubstring("TARGTYPE", row[1]) then
      if |row| < 3 then Err(ShortRow(i))
      else if st.current.None? then Err(NoRecord(i))
      else Ok(st.(current := Some(st.current.value.(targetType := Some(Lower(row[2]))))))
    else if IsSubstring("BIOCLASS", row[1]) then
      if |row| < 3 then Err(ShortRow(i))
      else if st.current.None? then Err(NoRecord(i))
      else Ok(st.(current := Some(st.current.value.(bioclass := Some(row[2])))))
    else Ok(st)
  }

  /** The scan over a prefix of the rows. */
  function ScanTargets(data: seq<Resolved>, rows: seq<Row>): Result<TargetScan, ScanError>
  {
    if rows == [] then Ok(TargetScan(None, []))
    else
      match ScanTargets(data, rows[..|rows| - 1])
      case Err(e) => Err(e)
      case Ok(st) => TargetStep(data, st, rows[|rows| - 1], |rows| - 1)
  }

  /** The number of blank rows. */
  function BlankRows(rows: seq<Row>): nat
  {
    if rows == [] then 0
    else BlankRows(rows[..|rows| - 1]) + (if IsBlankRow(rows[|rows| - 1]) then 1 else 0)
  }

  /** A record as the scanner builds it: its kbs are those the resolution
      found for its target, and its type is lower case. */
  predicate WellBuilt(data: seq<Resolved>, r: TargetInfo)
  {
    r.uniprotkb == UniprotOf(data, r.targetId)
    && (r.targetType.Some? ==> IsLower(r.targetType.value))
  }

  /** The scan yields once per blank row, the record being built belongs to
      the most recent TARGETID row, and every record built or yielded is
      well built. */
  lemma {:induction false} TargetScanInvariant(data: seq<Resolved>, rows: seq<Row>)
    requires ScanTargets(data, rows).Ok?
    ensures var st := ScanTargets(data, rows).value;
      && |st.yielded| == BlankRows(rows)
      && (st.current.Some? <==> LatestTarget(rows).Some?)
      && (st.current.Some? ==> st.current.value.targetId == LatestTarget(rows).value
                               && WellBuilt(data, st.current.value))
      && (forall k :: 0 <= k < |st.yielded| && st.yielded[k].Some? ==> WellBuilt(data, st.yielded[k].value))
  {
    if rows != [] {
      var pre := rows[..|rows| - 1];
      var row := rows[|rows| - 1];
      TargetScanInvariant(data, pre);
      if |row| >= 3 && IsSubstring("TARGTYPE", row[1]) {
        LowerIsLower(row[2]);
      }
    }
  }

  /** One more row: a blank row yields exactly the record being built (None
      before the first TARGETID row), any other row yields nothing. */
  lemma TargetScanStep(data: seq<Resolved>, rows: seq<Row>, row: Row)
    requires ScanTargets(data, rows).Ok?
    ensures var st := ScanTargets(data, rows).value;
      var next := ScanTargets(data, rows + [row]);
      && (IsBlankRow(row) ==> next == Ok(TargetScan(st.current, st.yielded + [st.current])))
      && (!IsBlankRow(row) && next.Ok? ==> next.value.yielded == st.yielded)
  {
    assert (rows + [row])[..|rows|] == rows;
  }

  /** `get_target_info`: the loop over the rows, yielding at blank rows. */
  method GetTargetInfo(data: seq<Resolved>, rows: seq<Row>) returns (r: Result<seq<Option<TargetInfo>>, ScanError>)
    ensures r.Ok? <==> ScanTargets(data, rows).Ok?
    ensures r.Ok? ==> r.value == ScanTargets(data, rows).value.yielded
    ensures r.Err? ==> r.error == ScanTargets(data, rows).error
  {
    var current: Option<TargetInfo> := None;
    var out: seq<Option<TargetInfo>> := [];
    var i := 0;
    while i < |rows|
      invariant 0 <= i <= |rows|
      invariant ScanTargets(data, rows[..i]) == Ok(TargetScan(current, out))
    {
      var row := rows[i];
      assert rows[..i + 1][..i] == rows[..i];
      if row != ["", "", "", "", ""] {
        if |row| < 2 || (|row| < 3 && (StartsWith(row[1], "TARGETID")
                                       || IsSubstring("TARGTYPE", row[1]) || IsSubstring("BIOCLASS", row[1]))) {
          TargetErrSticks(data, rows, i + 1);
          return Err(ShortRow(i));
        }
        if StartsWith(row[1], "TARGETID") {
          current := Some(TargetInfo(row[2], UniprotOf(data, row[2]), None, None));
        } else if IsSubstring("TARGTYPE", row[1]) {
          if current.None? {
            TargetErrSticks(data, rows, i + 1);
            return Err(NoRecord(i));
          }
          current := Some(current.value.(targetType := Some(Lower(row[2]))));
        } else if IsSubstring("BIOCLASS", row[1]) {
          if current.None? {
            TargetErrSticks(data, rows, i + 1);
            return Err(NoRecord(i));
          }
          current := Some(current.value.(bioclass := Some(row[2])));
        }
      } else {
        out := out + [current];
      }
      i := i + 1;
    }
    assert rows[..i] == rows;
    r := Ok(out);
  }

  /** Once a prefix fails, the whole scan fails with the same error. */
  lemma {:induction false} TargetErrSticks(data: seq<Resolved>, rows: seq<Row>, n: nat)
    requires n <= |rows| && ScanTargets(data, rows[..n]).Err?
    ensures ScanTargets(data, rows) == ScanTargets(data, rows[..n])
    decreases |rows| - n
  {
    if n < |rows| {
      assert rows[..n + 1][..n] == rows[..n];
      TargetErrSticks(data, rows, n + 1);
    } else {
      assert rows[..n] == rows;
    }
  }
}
