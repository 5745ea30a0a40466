/** The accession extractor, `UniprotJobIDs.get_uniprot_ac`: it scans the
    rows of the target-download file (already split on tabs, header skipped)
    and yields `{"ttd_target_id": id, "uniprot_ac": ac}` records. */
module Accessions {

  import opened Common
  import opened Strings

  /** One row of a tab-separated source file. */
  type Row = seq<string>

  /** The record dict; `ac` is None while it has no "uniprot_ac" key. */
  datatype TargetAc = TargetAc(targetId: string, ac: Option<Field>)

  /** The exceptions a row scanner can raise, with the row number:
      IndexError on a row with too few fields, TypeError when a row writes
      into the record before any opening row has created one, and the
      IndexError of `split(sep)[k]` on a field with too few separators. */
  datatype ScanError = ShortRow(row: nat) | NoRecord(row: nat) | NoPiece(row: nat)

  /** The characters of the pattern `[;/-]`. */
  const AcDelims: set<char> := {';', '/', '-'}

  /** The test of the first branch, with Python's precedence: `and` binds
      tighter than `or`, so "no parenthesis" only qualifies the hyphen. */
  predicate SplitsField(f: string)
  {
    ';' in f || '/' in f || ('-' in f && '(' !in f)
  }

  /** `[item.strip() for item in parts]` */
  function StripAll(parts: seq<string>): (r: seq<string>)
    ensures |r| == |parts| && forall k :: 0 <= k < |parts| ==> r[k] == Strip(parts[k])
  {
    seq(|parts|, k requires 0 <= k < |parts| => Strip(parts[k]))
  }

  /** The value the UNIPROID branch writes into the record, or None when it
      writes nothing. In the parenthesis branch the loop runs over the
      characters of the text before the first "(" and keeps the stripped
      last one; when that text is empty the loop body never runs. */
  function Normalise(f: string): (r: Option<Field>)
    ensures SplitsField(f) ==> r.Some? && r.value.Many?
    ensures !SplitsField(f) && '(' !in f ==> r == Some(One(f))
    ensures !SplitsField(f) && '(' in f ==>
              (r.None? <==> f[0] == '(') && (r.Some? ==> r.value.One? && |r.value.text| <= 1)
  {
    if SplitsField(f) then Some(Many(StripAll(SplitBy(f, AcDelims))))
    else if '(' in f then
      var before := SplitBy(f, {'('})[0];
      SplitFirst(f, {'('});
      if before == [] then None else Some(One(Strip([before[|before| - 1]])))
    else Some(One(f))
  }

  /** The split rule: one item per piece between the characters `; / -`,
      each item trimmed and free of those characters; a semicolon or slash
      triggers it even when a parenthesis is present. */
  lemma SplitRule(f: string)
    requires SplitsField(f)
    ensures Normalise(f).Some? && Normalise(f).value.Many?
    ensures |Normalise(f).value.items| == CountIn(f, AcDelims) + 1
    ensures forall k :: 0 <= k < |Normalise(f).value.items| ==>
              IsStripped(Normalise(f).value.items[k])
              && forall c :: c in Normalise(f).value.items[k] ==> c !in AcDelims
  {
    var parts := SplitBy(f, AcDelims);
    SplitPieces(f, AcDelims);
    forall k | 0 <= k < |parts| ensures forall c :: c in Strip(parts[k]) ==> c !in AcDelims {
      forall c | c in Strip(parts[k]) ensures c !in AcDelims {
        assert c in parts[k];
        var j :| 0 <= j < |parts[k]| && parts[k][j] == c;
      }
    }
  }

  /** The items of a split field are its trimmed pieces, and the pieces
      put back together with the delimiters between them give the field. */
  lemma SplitItems(f: string)
    requires SplitsField(f)
    ensures Normalise(f) == Some(Many(StripAll(SplitBy(f, AcDelims))))
    ensures Interleave(SplitBy(f, AcDelims), DelimsOf(f, AcDelims)) == f
  {
    InterleaveSplit(f, AcDelims);
  }

  /** The split rule for any field put together from delimiter-free pieces
      and the characters `; / -`: the stored list is the trimmed pieces. */
  lemma SplitRoundTrip(xs: seq<string>, ds: seq<char>)
    requires xs != [] && |ds| == |xs| - 1
    requires forall k :: 0 <= k < |ds| ==> ds[k] in AcDelims
    requires forall k :: 0 <= k < |xs| ==> !HasAny(xs[k], AcDelims)
    requires SplitsField(Interleave(xs, ds))
    ensures Normalise(Interleave(xs, ds)) == Some(Many(StripAll(xs)))
  {
    SplitInterleave(xs, ds, AcDelims);
  }

  /** The parenthesis rule: when the field is not split, the stored scalar
      is computed from the text before the first "(" alone (it is the
      stripped last character of that text), whatever follows. */
  lemma ParenRule(a: string, b: string)
    requires '(' !in a && !SplitsField(a + "(" + b)
    ensures Normalise(a + "(" + b) ==
              if a == [] then None else Some(One(Strip([a[|a| - 1]])))
  {
    var f := a + "(" + b;
    assert f == a + ['('] + b;
    assert !HasAny(a, {'('}) by {
      forall i | 0 <= i < |a| ensures a[i] !in {'('} { assert a[i] in a; }
    }
    SplitAfter(a, '(', b, {'('});
    assert f[|a|] == '(';
  }

  /** A field with none of `; / - (` is stored as it is. */
  lemma VerbatimRule(f: string)
    requires ';' !in f && '/' !in f && '-' !in f && '(' !in f
    ensures Normalise(f) == Some(One(f))
  {
  }

  /** An accession-list text such as "P1; P2" is split and trimmed. */
  lemma SplitExample()
    ensures Normalise("P1; P2") == Some(Many(["P1", "P2"]))
  {
    SplitExamplePieces();
    SplitExampleTrim();
  }

  lemma SplitExamplePieces()
    ensures SplitsField("P1; P2") && SplitBy("P1; P2", AcDelims) == ["P1", " P2"]
  {
    var f := "P1; P2";
    assert f[2] == ';';
    assert f == "P1" + [';'] + " P2";
    assert !HasAny("P1", AcDelims) by {
      forall i | 0 <= i < 2 ensures "P1"[i] !in AcDelims { }
    }
    assert !HasAny(" P2", AcDelims) by {
      forall i | 0 <= i < 3 ensures " P2"[i] !in AcDelims { }
    }
    SplitAfter("P1", ';', " P2", AcDelims);
    SplitNone(" P2", AcDelims);
  }

  lemma SplitExampleTrim()
    ensures StripAll(["P1", " P2"]) == ["P1", "P2"]
  {
    StripAllPair("P1", " P2");
    StripNoSpace();
    StripLeadingSpace();
  }

  lemma StripNoSpace()
    ensures Strip("P1") == "P1"
  {
    assert IsStripped("P1");
    StripStripped("P1");
  }

  lemma StripAllPair(a: string, b: string)
    ensures StripAll([a, b]) == [Strip(a), Strip(b)]
  {
  }

  lemma StripLeadingSpace()
    ensures Strip(" P2") == "P2"
  {
    assert " P2" == " " + "P2" + "";
    StripPadded(" ", "P2", "");
  }

  /** With a parenthesis, a hyphen does not split, and only the last
      character before the parenthesis survives: a space there leaves the
      empty string. */
  lemma ParenExample()
    ensures Normalise("P1-P2 (x)") == Some(One(""))
  {
    ParenExampleShape();
    assert "P1-P2 (x)" == "P1-P2 " + "(" + "x)";
    ParenRule("P1-P2 ", "x)");
    StripSpace();
  }

  lemma ParenExampleShape()
    ensures '(' !in "P1-P2 " && !SplitsField("P1-P2 (x)")
  {
    var f := "P1-P2 (x)";
    assert f[6] == '(';
    assert forall i :: 0 <= i < |f| ==> f[i] != ';' && f[i] != '/';
    assert forall i :: 0 <= i < 6 ==> "P1-P2 "[i] != '(';
  }

  lemma StripSpace()
    ensures Strip([' ']) == ""
  {
    assert TrimStart([' ']) == TrimStart([' '][1..]);
    assert [' '][1..] == [];
  }

  /** The generator's state: the record being built (None before the
      first TARGETID row) and the records yielded so far. */
  datatype AcScan = AcScan(current: Option<TargetAc>, yielded: seq<TargetAc>)

  predicate IsTargetIdRow(row: Row)
  {
    |row| >= 2 && StartsWith(row[1], "TARGETID")
  }

  predicate IsUniprotRow(row: Row)
  {
    |row| >= 2 && !StartsWith(row[1], "TARGETID") && IsSubstring("UNIPROID", row[1])
  }

  /** One iteration of the scan loop over row number `i`. */
  function AcStep(st: AcScan, row: Row, i: nat): Result<AcScan, ScanError>
  {
    if |row| < 2 then Err(ShortRow(i))
    else if StartsWith(row[1], "TARGETID") then
      if |row| < 3 then Err(ShortRow(i)) else Ok(AcScan(Some(TargetAc(row[2], None)), st.yielded))
    else if IsSubstring("UNIPROID", row[1]) then
      if |row| < 3 then Err(ShortRow(i))
      else
        match Normalise(row[2])
        case None =>
          Ok(if st.current.Some? then AcScan(st.current, st.yielded + [st.current.value]) else st)
        case Some(v) =>
          if st.current.None? then Err(NoRecord(i))
          else
            var rec := st.current.value.(ac := Some(v));
            Ok(AcScan(Some(rec), st.yielded + [rec]))
    else Ok(st)
  }

  /** The scan over a prefix of the rows. */
  function ScanAc(rows: seq<Row>): Result<AcScan, ScanError>
  {
    if rows == [] then Ok(AcScan(None, []))
    else
      match ScanAc(rows[..|rows| - 1])
      case Err(e) => Err(e)
      case Ok(st) => AcStep(st, rows[|rows| - 1], |rows| - 1)
  }

  /** The identifier of the most recent TARGETID row, if any. */
  function LatestTarget(rows: seq<Row>): Option<string>
  {
    if rows == [] then None
    else
      var row := rows[|rows| - 1];
      if IsTargetIdRow(row) && |row| >= 3 then Some(row[2]) else LatestTarget(rows[..|rows| - 1])
  }

  /** The record being built always belongs to the most recent TARGETID row. */
  lemma {:induction false} CurrentIsLatestTarget(rows: seq<Row>)
    requires ScanAc(rows).Ok?
    ensures ScanAc(rows).value.current.Some? <==> LatestTarget(rows).Some?
    ensures ScanAc(rows).value.current.Some? ==>
              ScanAc(rows).value.current.value.targetId == LatestTarget(rows).value
  {
    if rows != [] {
      CurrentIsLatestTarget(rows[..|rows| - 1]);
    }
  }

  /** What one more row does to the output: a UNIPROID row yields exactly
      one record, carrying the most recent TARGETID and the accession it
      wrote (or fails when no TARGETID row came before and it writes); any
      other row yields nothing. */
  lemma ScanStep(rows: seq<Row>, row: Row)
    requires ScanAc(rows).Ok? && |row| >= 3
    ensures var before := ScanAc(rows).value.yielded;
      var next := ScanAc(rows + [row]);
      && (!IsUniprotRow(row) ==> next.Ok? && next.value.yielded == before)
      && (IsUniprotRow(row) && LatestTarget(rows).None? && Normalise(row[2]).Some? ==>
            next == Err(NoRecord(|rows|)))
      && (IsUniprotRow(row) && LatestTarget(rows).Some? ==>
            && next.Ok?
            && |next.value.yielded| == |before| + 1
            && next.value.yielded[..|before|] == before
            && next.value.yielded[|before|].targetId == LatestTarget(rows).value
            && (Normalise(row[2]).Some? ==> next.value.yielded[|before|].ac == Normalise(row[2])))
  {
    assert (rows + [row])[..|rows|] == rows;
    CurrentIsLatestTarget(rows);
  }

  /** `get_uniprot_ac`: the loop over the rows, yielding after each UNIPROID
      row. */
  method GetUniprotAc(rows: seq<Row>) returns (r: Result<seq<TargetAc>, ScanError>)
    ensures r.Ok? <==> ScanAc(rows).Ok?
    ensures r.Ok? ==> r.value == ScanAc(rows).value.yielded
    ensures r.Err? ==> r.error == ScanAc(rows).error
  {
    var current: Option<TargetAc> := None;
    var out: seq<TargetAc> := [];
    var i := 0;
    while i < |rows|
      invariant 0 <= i <= |rows|
      invariant ScanAc(rows[..i]) == Ok(AcScan(current, out))
    {
      var row := rows[i];
      assert rows[..i + 1][..i] == rows[..i];
      if |row| < 2 {
        assert ScanAc(rows[..i + 1]).Err?;
        ScanErrSticks(rows, i + 1);
        return Err(ShortRow(i));
      }
      if StartsWith(row[1], "TARGETID") {
        if |row| < 3 {
          ScanErrSticks(rows, i + 1);
          return Err(ShortRow(i));
        }
        current := Some(TargetAc(row[2], None));
      } else if IsSubstring("UNIPROID", row[1]) {
        if |row| < 3 {
          ScanErrSticks(rows, i + 1);
          return Err(ShortRow(i));
        }
        var v := Normalise(row[2]);
        if v.Some? {
          if current.None? {
            ScanErrSticks(rows, i + 1);
            return Err(NoRecord(i));
          }
          current := Some(current.value.(ac := v));
        }
        if current.Some? {
          out := out + [current.value];
        }
      }
      i := i + 1;
    }
    assert rows[..i] == rows;
    r := Ok(out);
  }

  /** Once a prefix fails, the whole scan fails with the same error. */
  lemma {:induction false} ScanErrSticks(rows: seq<Row>, n: nat)
    requires n <= |rows| && ScanAc(rows[..n]).Err?
    ensures ScanAc(rows) == ScanAc(rows[..n])
    decreases |rows| - n
  {
    if n < |rows| {
      assert rows[..n + 1][..n] == rows[..n];
      ScanErrSticks(rows, n + 1);
    } else {
      assert rows[..n] == rows;
    }
  }
}
