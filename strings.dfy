/** The Python `str` operations the parser relies on, over `seq<char>`:
    `strip`, `rstrip(c)`, `split` on one or several delimiter characters,
    `lower`, `replace` of one character, `startswith` and `in`. */
module Strings {

  import opened Common

  /** The characters Python's `str.strip()` removes (those `str.isspace()`
      accepts). */
  predicate IsSpace(c: char)
  {
    c == ' ' || c == '\t' || c == '\n' || c == '\r' || c == '\U{B}' || c == '\U{C}'
    || ('\U{1C}' <= c <= '\U{1F}') || c == '\U{85}' || c == '\U{A0}' || c == '\U{1680}'
    || ('\U{2000}' <= c <= '\U{200A}') || c == '\U{2028}' || c == '\U{2029}'
    || c == '\U{202F}' || c == '\U{205F}' || c == '\U{3000}'
  }

  /** Neither starts nor ends with whitespace: what `strip()` returns. */
  predicate IsStripped(s: string)
  {
    s == [] || (!IsSpace(s[0]) && !IsSpace(s[|s| - 1]))
  }

  /** `s.lstrip()` */
  function TrimStart(s: string): (r: string)
    ensures r == [] || !IsSpace(r[0])
    ensures |r| <= |s| && r == s[|s| - |r|..]
    ensures forall i :: 0 <= i < |s| - |r| ==> IsSpace(s[i])
  {
    if s != [] && IsSpace(s[0]) then TrimStart(s[1..]) else s
  }

  /** `s.rstrip()` */
  function TrimEnd(s: string): (r: string)
    ensures r == [] || !IsSpace(r[|r| - 1])
    ensures |r| <= |s| && r == s[..|r|]
    ensures forall i :: |r| <= i < |s| ==> IsSpace(s[i])
  {
    if s != [] && IsSpace(s[|s| - 1]) then TrimEnd(s[..|s| - 1]) else s
  }

  /** `s.strip()`: the result is the slice of `s` between its leading and
      its trailing whitespace, and it neither starts nor ends with whitespace. */
  function Strip(s: string): (r: string)
    ensures IsStripped(r)
    ensures |r| <= |TrimStart(s)| <= |s| && r == TrimStart(s)[..|r|]
    ensures forall c :: c in r ==> c in s
  {
    var t := TrimStart(s);
    var r := TrimEnd(t);
    assert r == [] || !IsSpace(r[0]) by {
      if r != [] { assert r[0] == t[0]; }
    }
    r
  }

  lemma StripStripped(s: string)
    requires IsStripped(s)
    ensures Strip(s) == s
  {
  }

  /** Whitespace around a stripped text is what `strip()` removes. */
  lemma {:induction false} StripPadded(pre: string, s: string, post: string)
    requires forall i :: 0 <= i < |pre| ==> IsSpace(pre[i])
    requires forall i :: 0 <= i < |post| ==> IsSpace(post[i])
    requires IsStripped(s) && s != []
    ensures Strip(pre + s + post) == s
  {
    var w := pre + s + post;
    AppendAssoc(pre, s, post);
    assert (s + post)[0] == s[0];
    StripPaddedStart(pre, s + post);
    assert TrimStart(w) == s + post;
    StripPaddedEnd(s, post);
    assert TrimEnd(TrimStart(w)) == s;
  }

  lemma {:induction false} StripPaddedStart(pre: string, s: string)
    requires forall i :: 0 <= i < |pre| ==> IsSpace(pre[i])
    requires s != [] && !IsSpace(s[0])
    ensures TrimStart(pre + s) == s
  {
    if pre == [] {
      assert pre + s == s;
    } else {
      assert (pre + s)[0] == pre[0] && IsSpace(pre[0]);
      assert (pre + s)[1..] == pre[1..] + s;
      assert forall i :: 0 <= i < |pre[1..]| ==> pre[1..][i] == pre[i + 1];
      StripPaddedStart(pre[1..], s);
      assert TrimStart(pre + s) == TrimStart(pre[1..] + s);
    }
  }

  lemma {:induction false} StripPaddedEnd(s: string, post: string)
    requires forall i :: 0 <= i < |post| ==> IsSpace(post[i])
    requires s != [] && !IsSpace(s[|s| - 1])
    ensures TrimEnd(s + post) == s
  {
    if post != [] {
      assert (s + post)[..|s + post| - 1] == s + post[..|post| - 1];
      StripPaddedEnd(s, post[..|post| - 1]);
    }
  }

  /** `s.rstrip(c)`: drop every trailing `c`. */
  function TrimEndChar(s: string, c: char): (r: string)
    ensures |r| <= |s| && r == s[..|r|]
    ensures r == [] || r[|r| - 1] != c
    ensures forall i :: |r| <= i < |s| ==> s[i] == c
  {
    if s != [] && s[|s| - 1] == c then TrimEndChar(s[..|s| - 1], c) else s
  }

  /** ASCII `str.lower()`. */
  function LowerChar(c: char): char
  {
    if 'A' <= c <= 'Z' then (c as int - 'A' as int + 'a' as int) as char else c
  }

  function Lower(s: string): (r: string)
    ensures |r| == |s| && forall i :: 0 <= i < |s| ==> r[i] == LowerChar(s[i])
  {
    seq(|s|, i requires 0 <= i < |s| => LowerChar(s[i]))
  }

  /** No upper-case ASCII letter: `lower()` leaves the text alone. */
  predicate IsLower(s: string)
  {
    forall i :: 0 <= i < |s| ==> !('A' <= s[i] <= 'Z')
  }

  lemma LowerIsLower(s: string)
    ensures IsLower(Lower(s))
  {
    forall i | 0 <= i < |s| ensures !('A' <= Lower(s)[i] <= 'Z') {
      var c := s[i];
      if 'A' <= c <= 'Z' {
        assert Lower(s)[i] as int == c as int + 32;
      }
    }
  }

  /** `s.replace(a, b)` for single characters. */
  function ReplaceChar(s: string, a: char, b: char): (r: string)
    ensures |r| == |s|
    ensures forall i :: 0 <= i < |s| ==> r[i] == (if s[i] == a then b else s[i])
  {
    seq(|s|, i requires 0 <= i < |s| => if s[i] == a then b else s[i])
  }

  /** `s.startswith(p)` */
  predicate StartsWith(s: string, p: string)
  {
    p <= s
  }

  /** `t in s` for two strings: `t` occurs at some position of `s` (the
      empty string occurs in every string). */
  predicate IsSubstring(t: string, s: string)
    decreases |s|
  {
    t <= s || (s != [] && IsSubstring(t, s[1..]))
  }

  /** True iff some character of `s` is one of `delims`. */
  predicate HasAny(s: string, delims: set<char>)
  {
    exists i :: 0 <= i < |s| && s[i] in delims
  }

  /** The first position of a character of `delims` in `s`. */
  function Find(s: string, delims: set<char>): (r: Option<nat>)
    ensures r.Some? ==> r.value < |s| && s[r.value] in delims
                        && forall j :: 0 <= j < r.value ==> s[j] !in delims
    ensures r.None? <==> !HasAny(s, delims)
  {
    if s == [] then None
    else if s[0] in delims then Some(0)
    else
      match Find(s[1..], delims)
      case None => None
      case Some(i) => Some(i + 1)
  }

  /** `re.split("[...]", s)` on a class of single characters, and with one
      delimiter `s.split(c)`: the pieces between delimiters, in order,
      empty pieces included. */
  function SplitBy(s: string, delims: set<char>): (parts: seq<string>)
    ensures |parts| >= 1
    decreases |s|
  {
    match Find(s, delims)
    case None => [s]
    case Some(i) => [s[..i]] + SplitBy(s[i + 1..], delims)
  }

  /** The number of delimiter characters in `s`. */
  function CountIn(s: string, delims: set<char>): nat
  {
    if s == [] then 0 else (if s[0] in delims then 1 else 0) + CountIn(s[1..], delims)
  }

  lemma {:induction false} CountInAppend(a: string, b: string, delims: set<char>)
    ensures CountIn(a + b, delims) == CountIn(a, delims) + CountIn(b, delims)
  {
    if a == [] {
      assert a + b == b;
    } else {
      assert (a + b)[1..] == a[1..] + b;
      CountInAppend(a[1..], b, delims);
    }
  }

  lemma {:induction false} CountInNone(s: string, delims: set<char>)
    requires !HasAny(s, delims)
    ensures CountIn(s, delims) == 0
  {
    if s != [] {
      assert !HasAny(s[1..], delims) by {
        forall i | 0 <= i < |s[1..]| ensures s[1..][i] !in delims { assert s[1..][i] == s[i + 1]; }
      }
      CountInNone(s[1..], delims);
    }
  }

  /** Splitting gives one more piece than there are delimiters. */
  lemma {:induction false} SplitCount(s: string, delims: set<char>)
    ensures |SplitBy(s, delims)| == CountIn(s, delims) + 1
    decreases |s|
  {
    match Find(s, delims)
    case None =>
      CountInNone(s, delims);
    case Some(i) =>
      var rest := s[i + 1..];
      SplitCount(rest, delims);
      assert CountIn(s, delims) == CountIn(rest, delims) + 1 by {
        assert s == s[..i] + [s[i]] + rest;
        CountInAppend(s[..i] + [s[i]], rest, delims);
        CountInAppend(s[..i], [s[i]], delims);
        CountInNone(s[..i], delims) by {
          forall j | 0 <= j < i ensures s[..i][j] !in delims { }
        }
      }
  }

  /** No piece contains a delimiter. */
  lemma {:induction false} SplitClean(s: string, delims: set<char>)
    ensures forall k, j :: 0 <= k < |SplitBy(s, delims)| && 0 <= j < |SplitBy(s, delims)[k]| ==>
              SplitBy(s, delims)[k][j] !in delims
    decreases |s|
  {
    match Find(s, delims)
    case None =>
    case Some(i) =>
      var rest := s[i + 1..];
      SplitClean(rest, delims);
      var parts := SplitBy(s, delims);
      assert parts == [s[..i]] + SplitBy(rest, delims);
      forall k, j | 0 <= k < |parts| && 0 <= j < |parts[k]| ensures parts[k][j] !in delims {
        if k > 0 {
          assert parts[k] == SplitBy(rest, delims)[k - 1];
        }
      }
  }

  /** Splitting gives one more piece than there are delimiters, and no
      piece contains a delimiter. */
  lemma SplitPieces(s: string, delims: set<char>)
    ensures |SplitBy(s, delims)| == CountIn(s, delims) + 1
    ensures forall k, j :: 0 <= k < |SplitBy(s, delims)| && 0 <= j < |SplitBy(s, delims)[k]| ==>
              SplitBy(s, delims)[k][j] !in delims
  {
    SplitCount(s, delims);
    SplitClean(s, delims);
  }

  /** Text without `c` has no delimiter from `{c}`. */
  lemma NoneOf(s: string, c: char)
    requires c !in s
    ensures !HasAny(s, {c})
  {
    forall i | 0 <= i < |s| ensures s[i] != c { assert s[i] in s; }
  }

  /** A text without delimiters followed by a delimiter is the first piece. */
  lemma SplitAfter(a: string, c: char, b: string, delims: set<char>)
    requires !HasAny(a, delims) && c in delims
    ensures SplitBy(a + [c] + b, delims) == [a] + SplitBy(b, delims)
  {
    var s := a + [c] + b;
    assert Find(s, delims) == Some(|a|) by {
      assert s[|a|] == c;
      assert forall j :: 0 <= j < |a| ==> s[j] == a[j];
    }
    assert s[..|a|] == a && s[|a| + 1..] == b;
  }

  /** A text without delimiters is one piece. */
  lemma SplitNone(s: string, delims: set<char>)
    requires !HasAny(s, delims)
    ensures SplitBy(s, delims) == [s]
  {
  }

  /** The first piece is the text before the first delimiter. */
  lemma SplitFirst(s: string, delims: set<char>)
    ensures SplitBy(s, delims)[0] == (match Find(s, delims) case None => s case Some(i) => s[..i])
  {
  }

  /** Python's `s.split(c)[k]`, or the IndexError it raises. */
  function Piece(s: string, c: char, k: nat): (r: Option<string>)
    ensures r.Some? <==> k < |SplitBy(s, {c})|
  {
    var parts := SplitBy(s, {c});
    if k < |parts| then Some(parts[k]) else None
  }

  /** `c.join(xs)` for a non-empty list. */
  function Join(xs: seq<string>, c: char): string
    requires xs != []
    decreases |xs|
  {
    if |xs| == 1 then xs[0] else xs[0] + [c] + Join(xs[1..], c)
  }

  /** Splitting a joined list on its separator gives the list back, when no
      element contains the separator. */
  lemma {:induction false} SplitJoin(xs: seq<string>, c: char)
    requires xs != [] && forall k :: 0 <= k < |xs| ==> c !in xs[k]
    ensures SplitBy(Join(xs, c), {c}) == xs
    decreases |xs|
  {
    NoneOf(xs[0], c);
    if |xs| == 1 {
      SplitNone(xs[0], {c});
    } else {
      SplitJoin(xs[1..], c);
      SplitAfter(xs[0], c, Join(xs[1..], c), {c});
    }
  }

  /** `xs[0] + ds[0] + xs[1] + ... + ds[n-2] + xs[n-1]`: pieces separated by
      one delimiter character each. */
  function Interleave(xs: seq<string>, ds: seq<char>): string
    requires xs != [] && |ds| == |xs| - 1
    decreases |xs|
  {
    if |xs| == 1 then xs[0] else xs[0] + [ds[0]] + Interleave(xs[1..], ds[1..])
  }

  /** The delimiter characters of `s`, in order. */
  function DelimsOf(s: string, delims: set<char>): (ds: seq<char>)
    ensures |ds| == |SplitBy(s, delims)| - 1
    ensures forall k :: 0 <= k < |ds| ==> ds[k] in delims
    decreases |s|
  {
    match Find(s, delims)
    case None => []
    case Some(i) => [s[i]] + DelimsOf(s[i + 1..], delims)
  }

  /** Splitting text assembled from delimiter-free pieces and delimiters
      gives the pieces back. */
  lemma {:induction false} SplitInterleave(xs: seq<string>, ds: seq<char>, delims: set<char>)
    requires xs != [] && |ds| == |xs| - 1
    requires forall k :: 0 <= k < |ds| ==> ds[k] in delims
    requires forall k :: 0 <= k < |xs| ==> !HasAny(xs[k], delims)
    ensures SplitBy(Interleave(xs, ds), delims) == xs
    decreases |xs|
  {
    if |xs| == 1 {
      SplitNone(xs[0], delims);
    } else {
      SplitInterleave(xs[1..], ds[1..], delims);
      SplitAfter(xs[0], ds[0], Interleave(xs[1..], ds[1..]), delims);
    }
  }

  /** The pieces of a split, put back together with the delimiters that
      separated them, give the text back. */
  lemma {:induction false} InterleaveSplit(s: string, delims: set<char>)
    ensures Interleave(SplitBy(s, delims), DelimsOf(s, delims)) == s
    decreases |s|
  {
    match Find(s, delims)
    case None =>
    case Some(i) =>
      var rest := s[i + 1..];
      InterleaveSplit(rest, delims);
      var xs := SplitBy(s, delims);
      var ds := DelimsOf(s, delims);
      assert xs == [s[..i]] + SplitBy(rest, delims);
      assert ds == [s[i]] + DelimsOf(rest, delims);
      assert xs[1..] == SplitBy(rest, delims) && ds[1..] == DelimsOf(rest, delims);
      assert Interleave(xs, ds) == s[..i] + [s[i]] + rest;
      assert s == s[..i] + [s[i]] + rest;
  }

  /** `lower()` leaves lower-case text alone. */
  lemma LowerOfLower(s: string)
    requires IsLower(s)
    ensures Lower(s) == s
  {
  }

  /** The text before the first `c`. */
  lemma FirstPiece(a: string, c: char, b: string)
    requires c !in a
    ensures SplitBy(a + [c] + b, {c})[0] == a
  {
    NoneOf(a, c);
    SplitAfter(a, c, b, {c});
  }

  /** With one `c`, the second piece is the text after it. */
  lemma SecondPiece(a: string, c: char, b: string)
    requires c !in a && c !in b
    ensures SplitBy(a + [c] + b, {c}) == [a, b]
    ensures Piece(a + [c] + b, c, 1) == Some(b)
  {
    NoneOf(a, c);
    NoneOf(b, c);
    SplitAfter(a, c, b, {c});
    SplitNone(b, {c});
  }

  /** Behind the first `c`, the second piece is the text after it up to
      its own first `c`. */
  lemma PieceAfter(a: string, c: char, b: string)
    requires c !in a
    ensures Piece(a + [c] + b, c, 1) == Some(SplitBy(b, {c})[0])
    ensures c !in b ==> Piece(a + [c] + b, c, 1) == Some(b)
  {
    NoneOf(a, c);
    SplitAfter(a, c, b, {c});
    if c !in b {
      SecondPiece(a, c, b);
    }
  }

  /** `s.replace(c, "")` */
  function RemoveChar(s: string, c: char): (r: string)
    ensures c !in r
    ensures forall x :: x in r <==> x in s && x != c
  {
    if s == [] then []
    else (if s[0] == c then [] else [s[0]]) + RemoveChar(s[1..], c)
  }

  /** Removing a character the text does not hold changes nothing. */
  lemma {:induction false} RemoveAbsent(s: string, c: char)
    requires c !in s
    ensures RemoveChar(s, c) == s
  {
    if s != [] {
      assert s[0] in s;
      assert c !in s[1..] by {
        forall x | x in s[1..] ensures x in s { }
      }
      RemoveAbsent(s[1..], c);
    }
  }
}
