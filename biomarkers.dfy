/** Two field parsers of the loaders: the biomarker name, split into a name
    and a gene symbol at its last "(", one comma-separated item at a time
    when it lists several; and the activity field "IC50 | Ki | EC50 <value>"
    of the target-compound activity file. */
module Biomarkers {

  import opened Common
  import opened Strings
  import opened Accessions

  /** The match of `^(.*\(.*?)(.*)$` on a one-line text: the greedy first
      group runs up to and including the last "(", the lazy one is empty,
      and the second group is the rest. No match without "(". */
  function SplitLastParen(s: string): (r: Option<(string, string)>)
    ensures r.None? <==> '(' !in s
    ensures r.Some? ==> var (g1, g2) := r.value;
              g1 + g2 == s && g1 != [] && g1[|g1| - 1] == '(' && '(' !in g2
  {
    if s == [] then None
    else if s[|s| - 1] == '(' then Some((s, []))
    else
      match SplitLastParen(s[..|s| - 1])
      case None =>
        assert forall c :: c in s ==> c in s[..|s| - 1] || c == s[|s| - 1];
        None
      case Some((g1, g2)) =>
        assert s == s[..|s| - 1] + [s[|s| - 1]];
        Some((g1, g2 + [s[|s| - 1]]))
  }

  /** The split is determined by the last "(": any way of writing the text
      as `a + "(" + b` with no "(" in `b` is the one the match finds. */
  lemma {:induction false} SplitLastParenAt(a: string, b: string)
    requires '(' !in b
    ensures SplitLastParen(a + ['('] + b) == Some((a + ['('], b))
    decreases |b|
  {
    var s := a + ['('] + b;
    if b != [] {
      var b' := b[..|b| - 1];
      assert s[..|s| - 1] == a + ['('] + b';
      assert s[|s| - 1] == b[|b| - 1];
      assert b[|b| - 1] in b;
      assert '(' !in b' by {
        forall c | c in b' ensures c in b { }
      }
      SplitLastParenAt(a, b');
      assert b' + [b[|b| - 1]] == b;
    } else {
      assert s == a + ['('];
    }
  }

  /** The name a matched biomarker keeps: group 1 without its trailing "("
      characters, trimmed. */
  function NameOf(g1: string): string
  {
    Strip(TrimEndChar(g1, '('))
  }

  /** The name and symbol of a biomarker name without ",": on a match, the
      name and group 2 without its trailing ")" characters; otherwise the
      whole text with its spaces turned into "_", and no symbol. */
  function SingleMarker(s: string): (string, Option<string>)
  {
    match SplitLastParen(s)
    case Some((g1, g2)) => (NameOf(g1), Some(TrimEndChar(g2, ')')))
    case None => (ReplaceChar(s, ' ', '_'), None)
  }

  /** The name and symbol of one item of a listed biomarker name: the symbol
      is trimmed too, and an item without "(" is kept as it is. */
  function ItemMarker(item: string): (string, Option<string>)
  {
    match SplitLastParen(item)
    case Some((g1, g2)) => (NameOf(g1), Some(Strip(TrimEndChar(g2, ')'))))
    case None => (item, None)
  }

  /** The names of the items, one per item. */
  function ItemNames(items: seq<string>): (names: seq<string>)
    ensures |names| == |items|
    ensures forall k :: 0 <= k < |items| ==> names[k] == ItemMarker(items[k]).0
  {
    seq(|items|, k requires 0 <= k < |items| => ItemMarker(items[k]).0)
  }

  /** The symbols of the items that match, in item order. */
  function ItemSymbols(items: seq<string>): seq<string>
  {
    if items == [] then []
    else
      var last := ItemMarker(items[|items| - 1]).1;
      ItemSymbols(items[..|items| - 1]) + (if last.Some? then [last.value] else [])
  }

  /** One more item adds its name. */
  lemma ItemNamesSnoc(items: seq<string>, i: nat)
    requires i < |items|
    ensures ItemNames(items[..i + 1]) == ItemNames(items[..i]) + [ItemMarker(items[i]).0]
  {
    assert items[..i + 1][..i] == items[..i];
  }

  /** One more item adds its symbol, if it has one. */
  lemma ItemSymbolsSnoc(items: seq<string>, i: nat)
    requires i < |items|
    ensures ItemSymbols(items[..i + 1]) ==
              ItemSymbols(items[..i]) + (if ItemMarker(items[i]).1.Some? then [ItemMarker(items[i]).1.value] else [])
  {
    assert items[..i + 1][..i] == items[..i];
  }

  /** The symbol list is empty exactly when no item holds "(". */
  lemma {:induction false} ItemSymbolsEmpty(items: seq<string>)
    ensures ItemSymbols(items) == [] <==> forall k :: 0 <= k < |items| ==> '(' !in items[k]
  {
    if items != [] {
      var pre := items[..|items| - 1];
      ItemSymbolsEmpty(pre);
      assert forall k :: 0 <= k < |pre| ==> pre[k] == items[k];
    }
  }

  /** The object node's name and symbol. */
  datatype Marker = Marker(name: Field, symbol: Option<Field>)

  /** The biomarker branch of `load_biomarker_dis_data`: a name without ","
      is matched whole; a name with "," is split on its commas, each item
      trimmed and matched, and the symbol list is set on the node once an
      item matches. */
  method ParseBiomarker(s: string) returns (m: Marker)
    ensures ',' !in s ==>
              m.name == One(SingleMarker(s).0)
              && (m.symbol.Some? <==> '(' in s)
              && (m.symbol.Some? ==> m.symbol == Some(One(SingleMarker(s).1.value)))
    ensures ',' in s ==> m == ListMarker(StripAll(SplitBy(s, {','})))
  {
    if ',' !in s {
      var (name, symbol) := SingleMarker(s);
      m := Marker(One(name), if symbol.Some? then Some(One(symbol.value)) else None);
    } else {
      m := ParseMarkerList(StripAll(SplitBy(s, {','})));
    }
  }

  /** The node of a listed biomarker name: one name per item, and the
      symbols of the matching items once there is one. */
  function ListMarker(items: seq<string>): Marker
  {
    var symbols := ItemSymbols(items);
    Marker(Many(ItemNames(items)), if symbols != [] then Some(Many(symbols)) else None)
  }

  /** The loop over the items of a listed biomarker name. */
  method ParseMarkerList(items: seq<string>) returns (m: Marker)
    ensures m == ListMarker(items)
    ensures m.symbol.Some? <==> exists k :: 0 <= k < |items| && '(' in items[k]
  {
    var names: seq<string> := [];
    var symbols: seq<string> := [];
    var matched := false;
    for i := 0 to |items|
      invariant names == ItemNames(items[..i])
      invariant symbols == ItemSymbols(items[..i])
      invariant matched <==> symbols != []
    {
      ItemSymbolsSnoc(items, i);
      ItemNamesSnoc(items, i);
      var marker := ItemMarker(items[i]);
      if marker.1.Some? {
        symbols := symbols + [marker.1.value];
        matched := true;
      }
      names := names + [marker.0];
    }
    assert items[..|items|] == items;
    m := Marker(Many(names), if matched then Some(Many(symbols)) else None);
    ItemSymbolsEmpty(items);
  }

  /** Dropping the one trailing `c` of a text that does not otherwise end
      in `c`. */
  lemma TrimEndOne(a: string, c: char)
    requires a == [] || a[|a| - 1] != c
    ensures TrimEndChar(a + [c], c) == a
  {
    assert (a + [c])[..|a|] == a;
  }

  /** A biomarker written "<name> (<symbol>)" parses back into its name and
      symbol. */
  lemma SingleMarkerRoundTrip(name: string, symbol: string)
    requires name != [] && IsStripped(name)
    requires '(' !in symbol && (symbol == [] || symbol[|symbol| - 1] != ')')
    ensures SingleMarker(name + " (" + symbol + ")") == (name, Some(symbol))
  {
    var s := name + " (" + symbol + ")";
    assert s == (name + " ") + ['('] + (symbol + [')']);
    assert '(' !in symbol + [')'] by {
      assert forall c :: c in symbol + [')'] ==> c in symbol || c == ')';
    }
    SplitLastParenAt(name + " ", symbol + [')']);
    TrimEndOne(name + " ", '(');
    assert name + " " == [] + name + " ";
    StripPadded([], name, " ");
    TrimEndOne(symbol, ')');
  }

  /** A biomarker name without "(" has no symbol and keeps its text, with
      "_" for each space. */
  lemma SingleMarkerPlain(s: string)
    requires '(' !in s
    ensures SingleMarker(s) == (ReplaceChar(s, ' ', '_'), None)
    ensures ' ' !in SingleMarker(s).0
  {
  }

  /** The activity keywords, in the order the pattern tries them. */
  const ActivityKeywords: seq<string> := ["IC50", "Ki", "EC50"]

  /** The keyword the text starts with, if any. */
  function KeywordOf(s: string): (r: Option<string>)
    ensures r.Some? ==> r.value in ActivityKeywords && StartsWith(s, r.value)
    ensures r.None? <==> forall k :: 0 <= k < |ActivityKeywords| ==> !StartsWith(s, ActivityKeywords[k])
  {
    if StartsWith(s, "IC50") then Some("IC50")
    else if StartsWith(s, "Ki") then Some("Ki")
    else if StartsWith(s, "EC50") then Some("EC50")
    else None
  }

  /** The keywords lower-cased. */
  lemma KeywordsLower()
    ensures Lower("IC50") == "ic50" && Lower("Ki") == "ki" && Lower("EC50") == "ec50"
  {
    assert Lower("IC50") == [LowerChar('I'), LowerChar('C'), '5', '0'];
    assert Lower("Ki") == [LowerChar('K'), 'i'];
    assert Lower("EC50") == [LowerChar('E'), LowerChar('C'), '5', '0'];
  }

  /** `re.match(r"(IC50|Ki|EC50)\s+(.+)", s)` on a one-line text, as the
      association entry it produces: the lower-cased keyword and group 2
      without spaces. `\s+` takes the whole whitespace run after the
      keyword unless nothing would be left for `.+`; then it gives back its
      last character, which needs a run of two or more. */
  function Activity(s: string): (r: Option<(string, string)>)
    ensures r.Some? ==> r.value.0 in ["ic50", "ki", "ec50"] && ' ' !in r.value.1
  {
    KeywordsLower();
    match KeywordOf(s)
    case None => None
    case Some(kw) =>
      var rest := s[|kw|..];
      if rest == [] || !IsSpace(rest[0]) then None
      else
        var v := TrimStart(rest);
        if v != [] then Some((Lower(kw), RemoveChar(v, ' ')))
        else if |rest| >= 2 then Some((Lower(kw), RemoveChar([rest[|rest| - 1]], ' ')))
        else None
  }

  /** "<keyword><whitespace><value>" gives the keyword lower-cased and the
      value back, when the value has no spaces and starts with no
      whitespace. */
  lemma ActivityRoundTrip(k: nat, pad: string, value: string)
    requires k < |ActivityKeywords|
    requires pad != [] && forall i :: 0 <= i < |pad| ==> IsSpace(pad[i])
    requires value != [] && !IsSpace(value[0]) && ' ' !in value
    ensures Activity(ActivityKeywords[k] + pad + value) == Some((Lower(ActivityKeywords[k]), value))
  {
    var kw := ActivityKeywords[k];
    var s := kw + pad + value;
    assert KeywordOf(s) == Some(kw) by {
      assert s[..|kw|] == kw;
      assert s[0] == kw[0];
    }
    assert s[|kw|..] == pad + value;
    StripPaddedStart(pad, value);
    RemoveAbsent(value, ' ');
  }

  /** Text that does not start with a keyword, or whose keyword is not
      followed by whitespace, does not match. */
  lemma ActivityNoMatch(s: string)
    requires KeywordOf(s).None? || |s| == |KeywordOf(s).value| || !IsSpace(s[|KeywordOf(s).value|])
    ensures Activity(s).None?
  {
  }
}
