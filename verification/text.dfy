/**
  The JavaScript string primitives the portal relies on, over `string = seq<char>`:
  `split` on a one-character separator, `join`, `trim`/`trimEnd`, the `\s` class,
  whitespace tokenisation and the default (code-unit) ordering used by `Array.prototype.sort`.
*/
module Text {

  /** JavaScript's `\s` class; `String.prototype.trim` strips exactly these characters. */
  predicate IsSpace(c: char) {
    || c == ' ' || c == '\t' || c == '\n' || c == '\r' || c == '\U{000B}' || c == '\U{000C}'
    || c == '\U{00A0}' || c == '\U{1680}' || ('\U{2000}' <= c <= '\U{200A}')
    || c == '\U{2028}' || c == '\U{2029}' || c == '\U{202F}' || c == '\U{205F}'
    || c == '\U{3000}' || c == '\U{FEFF}'
  }

  predicate IsNewline(c: char) { c == '\n' }
  predicate IsColon(c: char) { c == ':' }
  predicate IsComma(c: char) { c == ',' }
  /** The separator of `scope.split(" ")`: the space character only. */
  predicate IsBlank(c: char) { c == ' ' }

  /** No character of `s` is a separator. */
  predicate Free(s: string, isSep: char -> bool) {
    forall i :: 0 <= i < |s| ==> !isSep(s[i])
  }

  /** Position of the first separator in `s`, or `|s|` when there is none. */
  function FirstSep(s: string, isSep: char -> bool): (i: nat)
    ensures i <= |s|
    ensures Free(s[..i], isSep)
    ensures i < |s| ==> isSep(s[i])
  {
    if |s| == 0 then 0
    else if isSep(s[0]) then 0
    else
      var j := FirstSep(s[1..], isSep);
      assert s[..1 + j] == [s[0]] + s[1..][..j];
      1 + j
  }

  /** `s.split(sep)` for a one-character separator: the pieces between separators, empty ones included. */
  function Split(s: string, isSep: char -> bool): (parts: seq<string>)
    ensures |parts| >= 1
    ensures forall i :: 0 <= i < |parts| ==> Free(parts[i], isSep)
    decreases |s|
  {
    var i := FirstSep(s, isSep);
    if i == |s| then assert s[..i] == s; [s]
    else [s[..i]] + Split(s[i + 1..], isSep)
  }

  /** `parts.join(sep)`. */
  function Join(parts: seq<string>, sep: string): string {
    if |parts| == 0 then ""
    else if |parts| == 1 then parts[0]
    else parts[0] + sep + Join(parts[1..], sep)
  }

  /** Number of separators in `s`. */
  function CountSep(s: string, isSep: char -> bool): nat {
    if |s| == 0 then 0 else (if isSep(s[0]) then 1 else 0) + CountSep(s[1..], isSep)
  }

  lemma {:induction false} FirstSepAfterFree(p: string, t: string, isSep: char -> bool)
    requires Free(p, isSep)
    ensures FirstSep(p + t, isSep) == |p| + FirstSep(t, isSep)
    decreases |p|
  {
    if |p| > 0 {
      assert (p + t)[1..] == p[1..] + t;
      FirstSepAfterFree(p[1..], t, isSep);
    } else {
      assert p + t == t;
    }
  }

  lemma FreeCountsNothing(s: string, isSep: char -> bool)
    requires Free(s, isSep)
    ensures CountSep(s, isSep) == 0
    decreases |s|
  {
    if |s| > 0 {
      FreeCountsNothing(s[1..], isSep);
    }
  }

  lemma {:induction false} CountSepAppend(p: string, t: string, isSep: char -> bool)
    ensures CountSep(p + t, isSep) == CountSep(p, isSep) + CountSep(t, isSep)
    decreases |p|
  {
    if |p| == 0 {
      assert p + t == t;
    } else {
      assert (p + t)[1..] == p[1..] + t;
      CountSepAppend(p[1..], t, isSep);
    }
  }

  /** Splitting yields one piece more than there are separators. */
  lemma {:induction false} SplitLength(s: string, isSep: char -> bool)
    ensures |Split(s, isSep)| == 1 + CountSep(s, isSep)
    decreases |s|
  {
    var i := FirstSep(s, isSep);
    FreeCountsNothing(s[..i], isSep);
    if i == |s| {
      assert s[..i] == s;
    } else {
      assert s == s[..i] + s[i..];
      CountSepAppend(s[..i], s[i..], isSep);
      assert s[i..][1..] == s[i + 1..];
      SplitLength(s[i + 1..], isSep);
    }
  }

  /** Joining separator-free pieces and splitting again gives the pieces back. */
  lemma {:induction false} SplitJoin(parts: seq<string>, c: char, isSep: char -> bool)
    requires |parts| >= 1 && isSep(c)
    requires forall i :: 0 <= i < |parts| ==> Free(parts[i], isSep)
    ensures Split(Join(parts, [c]), isSep) == parts
    decreases |parts|
  {
    var s := Join(parts, [c]);
    if |parts| == 1 {
      FirstSepAfterFree(parts[0], "", isSep);
      assert parts[0] + "" == parts[0];
    } else {
      var rest := Join(parts[1..], [c]);
      var i := |parts[0]|;
      assert s == parts[0] + ([c] + rest);
      FirstSepAfterFree(parts[0], [c] + rest, isSep);
      assert FirstSep([c] + rest, isSep) == 0;
      assert FirstSep(s, isSep) == i;
      assert s[..i] == parts[0];
      assert s[i + 1..] == rest;
      assert Split(s, isSep) == [parts[0]] + Split(rest, isSep);
      SplitJoin(parts[1..], c, isSep);
      assert parts == [parts[0]] + parts[1..];
    }
  }

  /** Splitting on the one-character separator `c` and joining with `c` gives `s` back. */
  lemma {:induction false} JoinSplit(s: string, c: char, isSep: char -> bool)
    requires forall x :: isSep(x) <==> x == c
    ensures Join(Split(s, isSep), [c]) == s
    decreases |s|
  {
    var i := FirstSep(s, isSep);
    if i < |s| {
      var rest := Split(s[i + 1..], isSep);
      JoinSplit(s[i + 1..], c, isSep);
      assert s == s[..i] + [c] + s[i + 1..];
    } else {
      assert s[..i] == s;
    }
  }

  /** Concatenation keeps separator-freedom in both directions. */
  lemma FreeConcat(a: string, b: string, isSep: char -> bool)
    ensures Free(a + b, isSep) <==> Free(a, isSep) && Free(b, isSep)
  {
    if Free(a, isSep) && Free(b, isSep) {
      forall i | 0 <= i < |a + b|
        ensures !isSep((a + b)[i])
      {
        if i >= |a| {
          assert (a + b)[i] == b[i - |a|];
        }
      }
    }
    if Free(a + b, isSep) {
      forall i | 0 <= i < |a|
        ensures !isSep(a[i])
      {
        assert (a + b)[i] == a[i];
      }
      forall i | 0 <= i < |b|
        ensures !isSep(b[i])
      {
        assert (a + b)[|a| + i] == b[i];
      }
    }
  }

  /** Joining separator-free parts with a separator-free glue gives a separator-free string. */
  lemma {:induction false} FreeJoin(parts: seq<string>, glue: string, isSep: char -> bool)
    requires Free(glue, isSep)
    requires forall i :: 0 <= i < |parts| ==> Free(parts[i], isSep)
    ensures Free(Join(parts, glue), isSep)
    decreases |parts|
  {
    if |parts| > 1 {
      FreeJoin(parts[1..], glue, isSep);
      FreeConcat(parts[0], glue, isSep);
      FreeConcat(parts[0] + glue, Join(parts[1..], glue), isSep);
    }
  }

  /** A join of at least one part ends with its last part. */
  lemma {:induction false} JoinEndsWithLast(parts: seq<string>, glue: string)
    requires |parts| >= 1
    ensures |Join(parts, glue)| >= |parts[|parts| - 1]|
    ensures Join(parts, glue)[|Join(parts, glue)| - |parts[|parts| - 1]|..] == parts[|parts| - 1]
    decreases |parts|
  {
    if |parts| > 1 {
      JoinEndsWithLast(parts[1..], glue);
      var j := Join(parts[1..], glue);
      var last := parts[|parts| - 1];
      assert parts[1..][|parts[1..]| - 1] == last;
      var p := j[..|j| - |last|];
      assert j == p + last;
      assert Join(parts, glue) == (parts[0] + glue + p) + last;
    }
  }

  /** `s.trimEnd()`. */
  function TrimEnd(s: string): (r: string)
    ensures |r| <= |s| && r == s[..|r|]
    ensures |r| == 0 || !IsSpace(r[|r| - 1])
    ensures forall i :: |r| <= i < |s| ==> IsSpace(s[i])
  {
    if |s| > 0 && IsSpace(s[|s| - 1]) then TrimEnd(s[..|s| - 1]) else s
  }

  /** `s.trimStart()`. */
  function TrimStart(s: string): (r: string)
    ensures |r| <= |s| && r == s[|s| - |r|..]
    ensures |r| == 0 || !IsSpace(r[0])
    ensures forall i :: 0 <= i < |s| - |r| ==> IsSpace(s[i])
  {
    if |s| > 0 && IsSpace(s[0]) then TrimStart(s[1..]) else s
  }

  /** `s.trim()`. */
  function Trim(s: string): string {
    TrimStart(TrimEnd(s))
  }

  /** A string without whitespace is left alone by every trim. */
  lemma TrimFree(s: string)
    requires Free(s, IsSpace)
    ensures TrimEnd(s) == s && TrimStart(s) == s && Trim(s) == s
  {
  }

  /** No whitespace at either end. */
  predicate Trimmed(s: string) {
    s == "" || (!IsSpace(s[0]) && !IsSpace(s[|s| - 1]))
  }

  /** A string with no whitespace at either end is its own trim. */
  lemma TrimFixed(s: string)
    requires Trimmed(s)
    ensures Trim(s) == s
  {
    assert TrimEnd(s) == s;
  }

  /** Every character is whitespace. */
  predicate AllSpace(w: string) {
    forall i :: 0 <= i < |w| ==> IsSpace(w[i])
  }

  /** Trailing whitespace after a string with no whitespace at its end is cut by `trimEnd`. */
  lemma {:induction false} TrimEndTrailing(s: string, w: string)
    requires s != "" && !IsSpace(s[|s| - 1]) && AllSpace(w)
    ensures TrimEnd(s + w) == s
    decreases |w|
  {
    if |w| == 0 {
      assert s + w == s;
    } else {
      var v := w[..|w| - 1];
      assert (s + w)[..|s + w| - 1] == s + v;
      assert (s + w)[|s + w| - 1] == w[|w| - 1];
      TrimEndTrailing(s, v);
    }
  }

  /** `trim` takes off whitespace that follows a string with no whitespace at either end. */
  lemma TrimTrailing(s: string, w: string)
    requires s != "" && Trimmed(s) && AllSpace(w)
    ensures Trim(s + w) == s
  {
    TrimEndTrailing(s, w);
  }

  /** `trim` leaves no whitespace at either end. */
  lemma TrimEnds(s: string)
    ensures Trimmed(Trim(s))
  {
    var e := TrimEnd(s);
    var t := TrimStart(e);
    if t != "" {
      assert t[|t| - 1] == e[|e| - 1];
    }
  }

  /** The non-empty strings of `xs`, in order. */
  function NonEmpty(xs: seq<string>): (r: seq<string>)
    ensures forall i :: 0 <= i < |r| ==> r[i] != ""
    ensures forall x :: x in r <==> x in xs && x != ""
  {
    if |xs| == 0 then []
    else (if xs[0] == "" then [] else [xs[0]]) + NonEmpty(xs[1..])
  }

  /**
    `s.split(/\s+/).map(trim).filter(u => u != '')`: the maximal runs of non-whitespace.
    Splitting at every whitespace character instead of at runs only adds empty pieces,
    which the filter drops, and trimming a whitespace-free piece changes nothing.
  */
  function Tokens(s: string): (r: seq<string>)
    ensures forall i :: 0 <= i < |r| ==> r[i] != "" && Free(r[i], IsSpace)
  {
    var pieces := Split(s, IsSpace);
    var r := NonEmpty(pieces);
    assert forall i :: 0 <= i < |r| ==> Free(r[i], IsSpace) by {
      forall i | 0 <= i < |r|
        ensures Free(r[i], IsSpace)
      {
        assert r[i] in pieces;
        var k :| 0 <= k < |pieces| && pieces[k] == r[i];
      }
    }
    r
  }

  lemma NonEmptyKeeps(xs: seq<string>)
    requires forall i :: 0 <= i < |xs| ==> xs[i] != ""
    ensures NonEmpty(xs) == xs
  {
  }

  /** Tokenising a space-led, space-joined list of whitespace-free words gives the words back. */
  lemma {:induction false} TokensOfJoin(ws: seq<string>)
    requires forall i :: 0 <= i < |ws| ==> ws[i] != "" && Free(ws[i], IsSpace)
    ensures Tokens(" " + Join(ws, " ")) == ws
  {
    if |ws| == 0 {
      var parts := ["", ""];
      assert Join(parts, " ") == " ";
      SplitJoin(parts, ' ', IsSpace);
      assert NonEmpty(parts) == [];
    } else {
      var parts := [""] + ws;
      assert parts[1..] == ws;
      assert Join(parts, " ") == " " + Join(ws, " ");
      assert forall i :: 0 <= i < |parts| ==> Free(parts[i], IsSpace);
      SplitJoin(parts, ' ', IsSpace);
      assert Split(" " + Join(ws, " "), IsSpace) == parts;
      NonEmptyKeeps(ws);
      assert NonEmpty(parts) == NonEmpty(ws);
    }
  }

  /** Splitting at a separator character splits the two sides independently. */
  lemma {:induction false} SplitAtSep(a: string, c: char, b: string, isSep: char -> bool)
    requires isSep(c)
    ensures Split(a + [c] + b, isSep) == Split(a, isSep) + Split(b, isSep)
    decreases |a|
  {
    var s := a + [c] + b;
    var i := FirstSep(a, isSep);
    if i == |a| {
      assert a[..i] == a;
      FirstSepAfterFree(a, [c] + b, isSep);
      assert s == a + ([c] + b);
      assert s[..|a|] == a && s[|a| + 1..] == b;
    } else {
      assert a == a[..i] + a[i..];
      FirstSepAfterFree(a[..i], a[i..] + [c] + b, isSep);
      assert s == a[..i] + (a[i..] + [c] + b);
      assert s[..i] == a[..i];
      assert s[i + 1..] == a[i + 1..] + [c] + b;
      SplitAtSep(a[i + 1..], c, b, isSep);
    }
  }

  lemma {:induction false} NonEmptyAppend(x: seq<string>, y: seq<string>)
    ensures NonEmpty(x + y) == NonEmpty(x) + NonEmpty(y)
    decreases |x|
  {
    if |x| == 0 {
      assert x + y == y;
    } else {
      assert (x + y)[0] == x[0] && (x + y)[1..] == x[1..] + y;
      NonEmptyAppend(x[1..], y);
    }
  }

  /** A whitespace character separates the tokens before it from those after it. */
  lemma TokensSplit(a: string, c: char, b: string)
    requires IsSpace(c)
    ensures Tokens(a + [c] + b) == Tokens(a) + Tokens(b)
  {
    SplitAtSep(a, c, b, IsSpace);
    NonEmptyAppend(Split(a, IsSpace), Split(b, IsSpace));
  }

  /** A whitespace-only string has no tokens. */
  lemma {:induction false} TokensBlank(s: string)
    requires forall i :: 0 <= i < |s| ==> IsSpace(s[i])
    ensures Tokens(s) == []
    decreases |s|
  {
    if |s| == 0 {
      assert Split(s, IsSpace) == [""];
      assert [""][1..] == [];
      assert NonEmpty([""]) == [] + NonEmpty([]);
    } else {
      assert s == [] + [s[0]] + s[1..];
      TokensSplit([], s[0], s[1..]);
      assert Split([], IsSpace) == [""];
      TokensBlank(s[1..]);
    }
  }

  /** A non-empty string without whitespace is one token. */
  lemma TokensWord(w: string)
    requires w != "" && Free(w, IsSpace)
    ensures Tokens(w) == [w]
  {
    FirstSepAfterFree(w, [], IsSpace);
    assert w + [] == w && w[..|w|] == w;
    assert Split(w, IsSpace) == [w];
    assert [w][1..] == [];
    assert NonEmpty([w]) == [w] + NonEmpty([]);
  }

  /**
    `trim` takes whitespace off both ends and nothing else: the result is a middle slice
    of the input with whitespace outside it and none at either of its ends.
  */
  lemma TrimSlice(s: string)
    ensures exists i, j :: 0 <= i <= j <= |s| && Trim(s) == s[i..j]
              && (forall k :: 0 <= k < i ==> IsSpace(s[k]))
              && (forall k :: j <= k < |s| ==> IsSpace(s[k]))
    ensures Trimmed(Trim(s))
  {
    var e := TrimEnd(s);
    var t := TrimStart(e);
    var i, j := |e| - |t|, |e|;
    assert t == e[i..] && e == s[..j];
    assert t == s[i..j];
    assert forall k :: 0 <= k < i ==> IsSpace(s[k]) by {
      forall k | 0 <= k < i ensures IsSpace(s[k]) { assert s[k] == e[k]; }
    }
    TrimEnds(s);
  }

  // ---- JavaScript's default sort order on strings ----

  /** `a <= b` in the order `Array.prototype.sort()` uses without a comparator. */
  predicate Below(a: string, b: string) {
    |a| == 0 || (|b| > 0 && (a[0] < b[0] || (a[0] == b[0] && Below(a[1..], b[1..]))))
  }

  lemma BelowReflexive(a: string)
    ensures Below(a, a)
  {
  }

  lemma BelowTotal(a: string, b: string)
    ensures Below(a, b) || Below(b, a)
  {
  }

  lemma BelowAntisymmetric(a: string, b: string)
    requires Below(a, b) && Below(b, a)
    ensures a == b
  {
    if |a| > 0 && |b| > 0 {
      BelowAntisymmetric(a[1..], b[1..]);
      assert a == [a[0]] + a[1..] && b == [b[0]] + b[1..];
    }
  }

  lemma BelowTransitive(a: string, b: string, c: string)
    requires Below(a, b) && Below(b, c)
    ensures Below(a, c)
  {
    if |a| > 0 && |b| > 0 && |c| > 0 && a[0] == b[0] && b[0] == c[0] {
      BelowTransitive(a[1..], b[1..], c[1..]);
    }
  }

  predicate SortedStrings(xs: seq<string>) {
    forall i, j :: 0 <= i < j < |xs| ==> Below(xs[i], xs[j])
  }

  function Insert(x: string, xs: seq<string>): (r: seq<string>)
    requires SortedStrings(xs)
    ensures SortedStrings(r)
    ensures multiset(r) == multiset(xs) + multiset{x}
    ensures |r| == |xs| + 1
  {
    if |xs| == 0 then [x]
    else if Below(x, xs[0]) then
      BelowAllOfSorted(x, xs);
      ConsSorted(x, xs);
      [x] + xs
    else
      BelowTotal(x, xs[0]);
      SortedTail(xs);
      var t := Insert(x, xs[1..]);
      AboveInserted(xs, x, t);
      ConsSorted(xs[0], t);
      assert xs == [xs[0]] + xs[1..];
      [xs[0]] + t
  }

  lemma SortedTail(xs: seq<string>)
    requires |xs| > 0 && SortedStrings(xs)
    ensures SortedStrings(xs[1..])
  {
    forall i, j | 0 <= i < j < |xs| - 1
      ensures Below(xs[1..][i], xs[1..][j])
    {
      assert xs[1..][i] == xs[i + 1] && xs[1..][j] == xs[j + 1];
    }
  }

  /** A string below the head of a sorted sequence is below all of it. */
  lemma BelowAllOfSorted(x: string, xs: seq<string>)
    requires |xs| > 0 && SortedStrings(xs) && Below(x, xs[0])
    ensures forall y :: y in xs ==> Below(x, y)
  {
    forall y | y in xs
      ensures Below(x, y)
    {
      var j :| 0 <= j < |xs| && xs[j] == y;
      if j > 0 { BelowTransitive(x, xs[0], xs[j]); }
    }
  }

  /** A string below every element of a sorted sequence can head it. */
  lemma ConsSorted(h: string, t: seq<string>)
    requires SortedStrings(t) && forall y :: y in t ==> Below(h, y)
    ensures SortedStrings([h] + t)
  {
    var r := [h] + t;
    forall i, j | 0 <= i < j < |r|
      ensures Below(r[i], r[j])
    {
      assert r[j] == t[j - 1];
      if i > 0 { assert r[i] == t[i - 1]; }
    }
  }

  /** Every string of the tail, and the one inserted into it, is above the head. */
  lemma AboveInserted(xs: seq<string>, x: string, t: seq<string>)
    requires |xs| > 0 && SortedStrings(xs) && Below(xs[0], x)
    requires multiset(t) == multiset(xs[1..]) + multiset{x}
    ensures forall y :: y in t ==> Below(xs[0], y)
  {
    forall y | y in t
      ensures Below(xs[0], y)
    {
      assert y in multiset(t);
      if y != x {
        assert y in multiset(xs[1..]);
        var k :| 0 <= k < |xs[1..]| && xs[1..][k] == y;
        assert xs[1 + k] == y;
      }
    }
  }

  /** `xs.slice().sort()` with the default comparator. */
  function Sort(xs: seq<string>): (r: seq<string>)
    ensures SortedStrings(r)
    ensures multiset(r) == multiset(xs)
    ensures |r| == |xs|
  {
    if |xs| == 0 then []
    else
      assert xs == [xs[0]] + xs[1..];
      Insert(xs[0], Sort(xs[1..]))
  }

  /** The head of a sorted sequence is below each of its elements. */
  lemma HeadBelow(a: seq<string>, x: string)
    requires SortedStrings(a) && x in a
    ensures Below(a[0], x)
  {
    var i :| 0 <= i < |a| && a[i] == x;
    if i == 0 { BelowReflexive(x); }
  }

  /** Equal multisets with equal heads have equal tails. */
  lemma MultisetTails(a: seq<string>, b: seq<string>)
    requires |a| > 0 && |b| > 0 && a[0] == b[0] && multiset(a) == multiset(b)
    ensures multiset(a[1..]) == multiset(b[1..])
  {
    assert a == [a[0]] + a[1..] && b == [b[0]] + b[1..];
    assert multiset(a) == multiset{a[0]} + multiset(a[1..]);
    assert multiset(b) == multiset{a[0]} + multiset(b[1..]);
    assert multiset(a[1..]) == multiset(a) - multiset{a[0]};
    assert multiset(b[1..]) == multiset(b) - multiset{a[0]};
  }

  /** Two sorted arrangements of the same strings are equal. */
  lemma {:induction false} SortedUnique(a: seq<string>, b: seq<string>)
    requires SortedStrings(a) && SortedStrings(b)
    requires multiset(a) == multiset(b)
    ensures a == b
    decreases |a|
  {
    assert |a| == |multiset(a)| == |multiset(b)| == |b|;
    if |a| > 0 {
      assert a[0] in multiset(b) && b[0] in multiset(a);
      HeadBelow(b, a[0]);
      HeadBelow(a, b[0]);
      BelowAntisymmetric(a[0], b[0]);
      MultisetTails(a, b);
      SortedTail(a);
      SortedTail(b);
      SortedUnique(a[1..], b[1..]);
      assert a == [a[0]] + a[1..] && b == [b[0]] + b[1..];
    }
  }
}
