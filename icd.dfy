/** The ICD helpers: `cleanup_icds`, the (ICD-11, ICD-9) pairs of one
    biomarker-disease row, the first-wins choice of a MONDO id per ICD-11
    code, and the slicing of an INDICATI field into code, disease and
    status. */
module Icd {

  import opened Common
  import opened Strings
  import opened Accessions

  /** `cleanup_icds(line, prefix)`: None when the field is "." or lacks the
      prefix; otherwise the trimmed text between the first and the second
      ":", split on "," and trimmed when it holds a comma. IndexError when
      the field has no ":" at all. */
  function CleanupIcds(line: string, prefix: string): Result<Option<Field>, Exception>
  {
    if line != "." && StartsWith(line, prefix) then
      match Piece(line, ':', 1)
      case None => Err(IndexError)
      case Some(p) =>
        var icd := Strip(p);
        if ',' in icd then Ok(Some(Many(StripAll(SplitBy(icd, {','}))))) else Ok(Some(One(icd)))
    else Ok(None)
  }

  /** The function returns None exactly for "." and for fields without the
      prefix, and cannot raise when the prefix itself holds the ":". */
  lemma CleanupIcdsNone(line: string, prefix: string)
    ensures CleanupIcds(line, prefix) == Ok(None) <==> line == "." || !StartsWith(line, prefix)
    ensures ':' in prefix ==> CleanupIcds(line, prefix).Ok?
  {
    if ':' in prefix && line != "." && StartsWith(line, prefix) {
      var i :| 0 <= i < |prefix| && prefix[i] == ':';
      assert line[i] == ':';
      assert HasAny(line, {':'});
      var j := Find(line, {':'}).value;
      assert SplitBy(line, {':'}) == [line[..j]] + SplitBy(line[j + 1..], {':'});
    }
  }

  /** A list item of the ICD columns: trimmed, non-empty, with neither ":"
      nor ",". */
  predicate IsCode(s: string)
  {
    s != [] && IsStripped(s) && ':' !in s && ',' !in s
  }

  /** Text made only of whitespace. */
  predicate IsPadding(s: string)
  {
    forall i :: 0 <= i < |s| ==> IsSpace(s[i])
  }

  /** A joined list of codes is trimmed and holds no ":". */
  lemma {:induction false} JoinCodes(codes: seq<string>)
    requires codes != [] && forall k :: 0 <= k < |codes| ==> IsCode(codes[k])
    ensures Join(codes, ',') != [] && IsStripped(Join(codes, ','))
    ensures ':' !in Join(codes, ',')
    ensures |codes| >= 2 ==> ',' in Join(codes, ',')
    decreases |codes|
  {
    if |codes| >= 2 {
      JoinCodes(codes[1..]);
      var j := Join(codes, ',');
      assert j == codes[0] + [','] + Join(codes[1..], ',');
      assert j[|codes[0]|] == ',';
    }
  }

  /** Cleaning up "<prefix>:<padding><code>" gives the code back. */
  lemma CleanupIcdsOne(p: string, pad: string, code: string)
    requires ':' !in p && IsPadding(pad) && IsCode(code) && ':' !in pad
    ensures CleanupIcds(p + ":" + pad + code, p + ":") == Ok(Some(One(code)))
  {
    CleanupIcdsPiece(p, pad, code);
  }

  /** Cleaning up "<prefix>:<padding><c1>,<c2>,..." gives the list back. */
  lemma CleanupIcdsMany(p: string, pad: string, codes: seq<string>)
    requires ':' !in p && IsPadding(pad) && ':' !in pad
    requires |codes| >= 2 && forall k :: 0 <= k < |codes| ==> IsCode(codes[k])
    ensures CleanupIcds(p + ":" + pad + Join(codes, ','), p + ":") == Ok(Some(Many(codes)))
  {
    var j := Join(codes, ',');
    JoinCodes(codes);
    SplitJoin(codes, ',');
    assert StripAll(codes) == codes by {
      forall k | 0 <= k < |codes| ensures StripAll(codes)[k] == codes[k] {
        StripStripped(codes[k]);
      }
    }
    CleanupIcdsList(p, pad, j, codes);
  }

  /** Cleaning up a field whose text after the ":" splits into trimmed
      items on its commas. */
  lemma CleanupIcdsList(p: string, pad: string, j: string, codes: seq<string>)
    requires ':' !in p && IsPadding(pad) && ':' !in pad
    requires j != [] && IsStripped(j) && ':' !in j && ',' in j
    requires SplitBy(j, {','}) == codes && StripAll(codes) == codes
    ensures CleanupIcds(p + ":" + pad + j, p + ":") == Ok(Some(Many(codes)))
  {
    CleanupIcdsPiece(p, pad, j);
  }

  /** The shared step of the two round trips: the field passes the guard,
      the piece after the ":" is the padded text, and it strips to the text
      itself. */
  lemma CleanupIcdsPiece(p: string, pad: string, j: string)
    requires ':' !in p && IsPadding(pad) && ':' !in pad
    requires j != [] && IsStripped(j) && ':' !in j
    ensures var line := p + ":" + pad + j;
      StartsWith(line, p + ":") && line != "." && Piece(line, ':', 1) == Some(pad + j) && Strip(pad + j) == j
  {
    var line := p + ":" + pad + j;
    assert line == p + [':'] + (pad + j);
    SecondPiece(p, ':', pad + j);
    assert pad + j == pad + j + [];
    StripPadded(pad, j, []);
    assert line[..|p + ":"|] == p + ":";
  }

  /** Python truthiness of what `cleanup_icds` returns: a non-empty string
      or list. */
  predicate Truthy(v: Option<Field>)
  {
    v.Some? && (if v.value.One? then v.value.text != [] else v.value.items != [])
  }

  /** The (ICD-11, ICD-9) pairs one row contributes: one per ICD-9 item when
      both cleaned fields are truthy, none otherwise. An ICD-11 list makes
      the pair unhashable, so the `set(...)` that follows raises TypeError. */
  function RowPairs(icd9: Option<Field>, icd11: Option<Field>): (r: Result<seq<(string, string)>, Exception>)
    ensures r.Ok? && r.value != [] ==> Truthy(icd9) && Truthy(icd11)
    ensures r.Err? <==> Truthy(icd9) && Truthy(icd11) && icd11.value.Many?
  {
    if Truthy(icd9) && Truthy(icd11) then
      match icd11.value
      case Many(_) => Err(TypeError)
      case One(code11) =>
        match icd9.value
        case One(code9) => Ok([(code11, code9)])
        case Many(items) => Ok(seq(|items|, k requires 0 <= k < |items| => (code11, items[k])))
    else Ok([])
  }

  /** Every ICD-9 item of a row is paired with the row's ICD-11 code. */
  lemma RowPairsItems(code11: string, icd9: Option<Field>)
    requires code11 != [] && Truthy(icd9)
    ensures var r := RowPairs(icd9, Some(One(code11)));
      r.Ok? && (forall k :: 0 <= k < |r.value| ==> r.value[k].0 == code11)
      && (forall x: (string, string) :: x in Elems(r.value) <==>
            x.0 == code11 && (if icd9.value.One? then x.1 == icd9.value.text else x.1 in icd9.value.items))
  {
    var r := RowPairs(icd9, Some(One(code11)));
    if icd9.value.Many? {
      var items := icd9.value.items;
      forall x: (string, string) | x.0 == code11 && x.1 in items ensures x in Elems(r.value) {
        var k :| 0 <= k < |items| && items[k] == x.1;
        assert r.value[k] == x;
      }
    }
  }

  /** The pair at `n` is the first whose ICD-9 code has a MONDO id, among
      those with its ICD-11 code. */
  predicate IsFirstMapped(pairs: seq<(string, string)>, icd9Mondo: map<string, string>, n: int)
  {
    && 0 <= n < |pairs|
    && pairs[n].1 in icd9Mondo
    && forall j :: 0 <= j < n && pairs[j].0 == pairs[n].0 ==> pairs[j].1 !in icd9Mondo
  }

  /** The reference definition: the MONDO id of the first pair for `icd11`
      whose ICD-9 code is mapped. */
  function FirstMondo(pairs: seq<(string, string)>, icd9Mondo: map<string, string>, icd11: string): Option<string>
  {
    if pairs == [] then None
    else if pairs[0].0 == icd11 && pairs[0].1 in icd9Mondo then Some(icd9Mondo[pairs[0].1])
    else FirstMondo(pairs[1..], icd9Mondo, icd11)
  }

  /** The reference definition picks exactly the first mapped pair. */
  lemma {:induction false} FirstMondoIndex(pairs: seq<(string, string)>, icd9Mondo: map<string, string>, icd11: string)
    ensures FirstMondo(pairs, icd9Mondo, icd11).None? <==>
              forall n :: 0 <= n < |pairs| && pairs[n].0 == icd11 ==> pairs[n].1 !in icd9Mondo
    ensures FirstMondo(pairs, icd9Mondo, icd11).Some? ==>
              exists n :: IsFirstMapped(pairs, icd9Mondo, n) && pairs[n].0 == icd11
                          && FirstMondo(pairs, icd9Mondo, icd11).value == icd9Mondo[pairs[n].1]
  {
    if pairs != [] {
      var rest := pairs[1..];
      FirstMondoIndex(rest, icd9Mondo, icd11);
      if pairs[0].0 == icd11 && pairs[0].1 in icd9Mondo {
        assert IsFirstMapped(pairs, icd9Mondo, 0);
      } else {
        forall n | 0 <= n < |rest| && rest[n].0 == icd11 && rest[n].1 in icd9Mondo
          ensures pairs[n + 1].0 == icd11 && pairs[n + 1].1 in icd9Mondo
        {
        }
        if FirstMondo(rest, icd9Mondo, icd11).Some? {
          var n :| IsFirstMapped(rest, icd9Mondo, n) && rest[n].0 == icd11
                   && FirstMondo(rest, icd9Mondo, icd11).value == icd9Mondo[rest[n].1];
          assert IsFirstMapped(pairs, icd9Mondo, n + 1);
        }
      }
    }
  }

  /** Appending a pair changes the choice only for a code without one yet. */
  lemma {:induction false} FirstMondoSnoc(pairs: seq<(string, string)>, p: (string, string), icd9Mondo: map<string, string>, icd11: string)
    ensures FirstMondo(pairs + [p], icd9Mondo, icd11) ==
      if FirstMondo(pairs, icd9Mondo, icd11).Some? then FirstMondo(pairs, icd9Mondo, icd11)
      else if p.0 == icd11 && p.1 in icd9Mondo then Some(icd9Mondo[p.1])
      else None
    decreases |pairs|
  {
    if pairs != [] {
      assert (pairs + [p])[1..] == pairs[1..] + [p];
      FirstMondoSnoc(pairs[1..], p, icd9Mondo, icd11);
    } else {
      assert (pairs + [p])[1..] == [];
    }
  }

  /** The loop of `get_icd9_11_mondo_mapping` that builds `icd11_mondo`:
      each ICD-11 code gets the MONDO id of its first pair whose ICD-9 code
      has one. */
  method SelectMondo(pairs: seq<(string, string)>, icd9Mondo: map<string, string>) returns (icd11Mondo: map<string, string>)
    ensures forall k :: k in icd11Mondo <==> FirstMondo(pairs, icd9Mondo, k).Some?
    ensures forall k :: k in icd11Mondo ==> icd11Mondo[k] == FirstMondo(pairs, icd9Mondo, k).value
  {
    icd11Mondo := map[];
    for i := 0 to |pairs|
      invariant forall k :: k in icd11Mondo <==> FirstMondo(pairs[..i], icd9Mondo, k).Some?
      invariant forall k :: k in icd11Mondo ==> icd11Mondo[k] == FirstMondo(pairs[..i], icd9Mondo, k).value
    {
      var (icd11, icd9) := pairs[i];
      assert pairs[..i + 1] == pairs[..i] + [pairs[i]];
      forall k {
        FirstMondoSnoc(pairs[..i], pairs[i], icd9Mondo, k);
      }
      if icd11 !in icd11Mondo && icd9 in icd9Mondo {
        icd11Mondo := icd11Mondo[icd11 := icd9Mondo[icd9]];
      }
    }
    assert pairs[..|pairs|] == pairs;
  }

  /** An indication: its ICD-11 code, disease name and trial status. */
  datatype Indication = Indication(icd11: string, disease: string, status: string)

  /** `f.split(":")[1].split("]")[0].strip()`, or IndexError without ":". */
  function IcdOf(f: string): Result<string, Exception>
  {
    match Piece(f, ':', 1)
    case None => Err(IndexError)
    case Some(p) => Ok(Strip(SplitBy(p, {']'})[0]))
  }

  /** `f.split("[")[0].strip()`: never raises. */
  function DiseaseOf(f: string): string
  {
    Strip(SplitBy(f, {'['})[0])
  }

  /** The INDICATI field of the drug-disease file: code, disease, and the
      lower-cased status after the "]". Raises IndexError without ":" or
      without "]". */
  function ParseDrugIndication(f: string): Result<Indication, Exception>
  {
    match IcdOf(f)
    case Err(e) => Err(e)
    case Ok(icd11) =>
      match Piece(f, ']', 1)
      case None => Err(IndexError)
      case Some(s) => Ok(Indication(icd11, DiseaseOf(f), Lower(Strip(s))))
  }

  /** The INDICATI row of the target-disease file: code and disease from the
      fourth field, status from the third up to any tab. */
  function ParseTargetIndication(statusField: string, f: string): Result<Indication, Exception>
  {
    match IcdOf(f)
    case Err(e) => Err(e)
    case Ok(icd11) => Ok(Indication(icd11, DiseaseOf(f), SplitBy(statusField, {'\t'})[0]))
  }

  /** The file's layout of an indication. */
  function FormatIndication(name: string, code: string, status: string): string
  {
    name + " [ICD-11: " + code + "] " + status
  }

  /** A piece of an indication: trimmed, non-empty, without ":" or "]". */
  predicate IsPiece(s: string)
  {
    s != [] && IsStripped(s) && ':' !in s && ']' !in s
  }

  /** Parsing a drug indication written in the file's layout gives back its
      parts, the status lower-cased. */
  lemma ParseDrugIndicationRoundTrip(name: string, code: string, status: string)
    requires IsPiece(name) && '[' !in name && IsPiece(code) && IsPiece(status)
    ensures ParseDrugIndication(FormatIndication(name, code, status)) == Ok(Indication(code, name, Lower(status)))
  {
    IndicationIcd(name, code, status);
    IndicationDisease(name, code, status);
    IndicationStatus(name, code, status);
  }

  /** The text after the "]" of an indication in the file's layout. */
  lemma IndicationStatus(name: string, code: string, status: string)
    requires IsPiece(name) && IsPiece(code) && IsPiece(status)
    ensures Piece(FormatIndication(name, code, status), ']', 1) == Some(" " + status)
    ensures Strip(" " + status) == status
  {
    var a := name + " [ICD-11: " + code;
    assert FormatIndication(name, code, status) == a + [']'] + (" " + status);
    assert ']' !in a by {
      assert forall c :: c in a ==> c in name || c in " [ICD-11: " || c in code;
    }
    assert ']' !in " " + status by {
      assert forall c :: c in " " + status ==> c == ' ' || c in status;
    }
    SecondPiece(a, ']', " " + status);
    assert " " + status == " " + status + [];
    StripPadded(" ", status, []);
  }

  /** The code of an indication in the file's layout. */
  lemma IndicationIcd(name: string, code: string, status: string)
    requires IsPiece(name) && IsPiece(code) && IsPiece(status)
    ensures IcdOf(FormatIndication(name, code, status)) == Ok(code)
  {
    IndicationColon(name, code, status);
    var b := " " + code + "] " + status;
    assert ']' !in " " + code by {
      assert forall c :: c in " " + code ==> c == ' ' || c in code;
    }
    assert b == (" " + code) + [']'] + (" " + status);
    FirstPiece(" " + code, ']', " " + status);
    assert " " + code == " " + code + [];
    StripPadded(" ", code, []);
  }

  /** The text after the only ":" of an indication in the file's layout. */
  lemma IndicationColon(name: string, code: string, status: string)
    requires IsPiece(name) && IsPiece(code) && IsPiece(status)
    ensures Piece(FormatIndication(name, code, status), ':', 1) == Some(" " + code + "] " + status)
  {
    var a := name + " [ICD-11";
    var b := " " + code + "] " + status;
    assert FormatIndication(name, code, status) == a + [':'] + b;
    assert ':' !in a by {
      assert forall c :: c in a ==> c in name || c in " [ICD-11";
    }
    assert ':' !in b by {
      assert forall c :: c in b ==> c in code || c in status || c in " ] ";
    }
    SecondPiece(a, ':', b);
  }

  /** The disease of an indication in the file's layout. */
  lemma IndicationDisease(name: string, code: string, status: string)
    requires IsPiece(name) && '[' !in name
    ensures DiseaseOf(FormatIndication(name, code, status)) == name
  {
    var rest := "ICD-11: " + code + "] " + status;
    assert FormatIndication(name, code, status) == (name + " ") + ['['] + rest;
    assert '[' !in name + " " by {
      assert forall c :: c in name + " " ==> c == ' ' || c in name;
    }
    FirstPiece(name + " ", '[', rest);
    assert name + " " == [] + name + " ";
    StripPadded([], name, " ");
  }

  /** The target file's status field without a tab is taken verbatim, and
      its indication field reads like the drug file's. */
  lemma ParseTargetIndicationRoundTrip(statusField: string, name: string, code: string, status: string)
    requires '\t' !in statusField
    requires IsPiece(name) && '[' !in name && IsPiece(code) && IsPiece(status)
    ensures ParseTargetIndication(statusField, FormatIndication(name, code, status)) == Ok(Indication(code, name, statusField))
  {
    IndicationIcd(name, code, status);
    IndicationDisease(name, code, status);
    NoneOf(statusField, '\t');
    SplitNone(statusField, {'\t'});
  }

  /** Without ":" the drug and target parses raise IndexError; without "]"
      after it, the drug parse does too. */
  lemma ParseIndicationErrors(statusField: string, f: string)
    ensures ':' !in f ==> (ParseDrugIndication(f) == Err(IndexError)
                           && ParseTargetIndication(statusField, f) == Err(IndexError))
    ensures ':' in f && ']' !in f ==> ParseDrugIndication(f) == Err(IndexError)
  {
    if ':' !in f {
      NoneOf(f, ':');
      SplitNone(f, {':'});
    } else if ']' !in f {
      NoneOf(f, ']');
      SplitNone(f, {']'});
    }
  }
}
