/** The string operations of JavaScript the core relies on: whitespace (`\s`), `split`,
    `join`, `trim`, `startsWith`, `indexOf`/`includes`, and the whitespace-collapsing
    `replace(/\s+/g, ' ')`. A string is a `seq<char>`, a sequence of Unicode scalar values, where
    JavaScript counts UTF-16 code units; lengths and offsets agree for text without surrogate
    pairs, and `indexOf`, `slice` and `length` here all count in the same unit. */
module Strings {
  import Seqs

  /** ECMAScript's WhiteSpace and LineTerminator code points: the class `\s` and what `trim` removes. */
  predicate IsSpace(c: char) {
    c == ' ' || c == '\t' || c == '\n' || c == '\r' || c == '\U{000B}' || c == '\U{000C}'
    || c == '\U{00A0}' || c == '\U{1680}' || ('\U{2000}' <= c <= '\U{200A}')
    || c == '\U{2028}' || c == '\U{2029}' || c == '\U{202F}' || c == '\U{205F}'
    || c == '\U{3000}' || c == '\U{FEFF}'
  }

  predicate NotSpace(c: char) {
    !IsSpace(c)
  }

  /** The non-whitespace characters of `s`, in order. */
  function Strip(s: string): string {
    Seqs.Filter(s, NotSpace)
  }

  /** `s` without its leading whitespace (`trimStart`). */
  function DropSpaces(s: string): (r: string)
    ensures |r| <= |s| && r == s[|s| - |r|..]
    ensures |r| > 0 ==> !IsSpace(r[0])
    ensures forall i :: 0 <= i < |s| - |r| ==> IsSpace(s[i])
    decreases |s|
  {
    if |s| > 0 && IsSpace(s[0]) then DropSpaces(s[1..]) else s
  }

  /** `s` without its trailing whitespace (`trimEnd`). */
  function DropTrailingSpaces(s: string): (r: string)
    ensures |r| <= |s| && r == s[..|r|]
    ensures |r| > 0 ==> !IsSpace(r[|r| - 1])
    ensures forall i :: |r| <= i < |s| ==> IsSpace(s[i])
    decreases |s|
  {
    if |s| > 0 && IsSpace(s[|s| - 1]) then DropTrailingSpaces(s[..|s| - 1]) else s
  }

  /** `String.prototype.trim`. */
  function Trim(s: string): string {
    DropTrailingSpaces(DropSpaces(s))
  }

  /** Every whitespace character is a plain space and no two whitespace characters are adjacent. */
  ghost predicate Collapsed(s: string) {
    forall i :: 0 <= i < |s| && IsSpace(s[i]) ==> s[i] == ' ' && (i + 1 < |s| ==> !IsSpace(s[i + 1]))
  }

  /** `s.replace(/\s+/g, ' ')`: every maximal run of whitespace becomes one space. */
  function Flat(s: string): string
    decreases |s|
  {
    if |s| == 0 then ""
    else if IsSpace(s[0]) then " " + Flat(DropSpaces(s[1..]))
    else [s[0]] + Flat(s[1..])
  }

  lemma {:induction false} FlatHead(s: string)
    requires |s| > 0
    ensures |Flat(s)| > 0
    ensures IsSpace(s[0]) ==> Flat(s)[0] == ' '
    ensures !IsSpace(s[0]) ==> Flat(s)[0] == s[0]
  {
  }

  /** One character in front of a collapsed string keeps it collapsed, unless it is whitespace
      other than a space, or whitespace before whitespace. */
  lemma CollapsedCons(c: char, t: string)
    requires Collapsed(t)
    requires IsSpace(c) ==> c == ' ' && (|t| > 0 ==> !IsSpace(t[0]))
    ensures Collapsed([c] + t)
  {
    var s := [c] + t;
    forall i | 0 <= i < |s| && IsSpace(s[i])
      ensures s[i] == ' ' && (i + 1 < |s| ==> !IsSpace(s[i + 1]))
    {
      if i > 0 {
        assert s[i] == t[i - 1];
        assert i + 1 < |s| ==> s[i + 1] == t[i];
      }
    }
  }

  lemma {:induction false} FlatCollapsed(s: string)
    ensures Collapsed(Flat(s))
    decreases |s|
  {
    if |s| > 0 {
      if IsSpace(s[0]) {
        var t := DropSpaces(s[1..]);
        FlatCollapsed(t);
        if |t| > 0 { FlatHead(t); }
        assert Flat(s) == " " + Flat(t);
        CollapsedCons(' ', Flat(t));
      } else {
        FlatCollapsed(s[1..]);
        assert Flat(s) == [s[0]] + Flat(s[1..]);
        CollapsedCons(s[0], Flat(s[1..]));
      }
    }
  }

  /** An already collapsed string is its own flattening. */
  lemma {:induction false} FlatOfCollapsed(s: string)
    requires Collapsed(s)
    ensures Flat(s) == s
    decreases |s|
  {
    if |s| > 0 {
      assert Collapsed(s[1..]) by {
        forall i | 0 <= i < |s[1..]| && IsSpace(s[1..][i])
          ensures s[1..][i] == ' ' && (i + 1 < |s[1..]| ==> !IsSpace(s[1..][i + 1]))
        {
          assert s[1..][i] == s[i + 1];
        }
      }
      if IsSpace(s[0]) {
        assert |s| > 1 ==> !IsSpace(s[1]);
        assert DropSpaces(s[1..]) == s[1..];
      }
      FlatOfCollapsed(s[1..]);
    }
  }

  /** Flattening is idempotent. */
  lemma FlatIdempotent(s: string)
    ensures Flat(Flat(s)) == Flat(s)
  {
    FlatCollapsed(s);
    FlatOfCollapsed(Flat(s));
  }

  lemma {:induction false} StripDropSpaces(s: string)
    ensures Strip(DropSpaces(s)) == Strip(s)
    decreases |s|
  {
    if |s| > 0 && IsSpace(s[0]) {
      StripDropSpaces(s[1..]);
    }
  }

  lemma {:induction false} StripDropTrailingSpaces(s: string)
    ensures Strip(DropTrailingSpaces(s)) == Strip(s)
    decreases |s|
  {
    if |s| > 0 && IsSpace(s[|s| - 1]) {
      var init := s[..|s| - 1];
      assert s == init + [s[|s| - 1]];
      Seqs.FilterAppend(init, [s[|s| - 1]], NotSpace);
      StripDropTrailingSpaces(init);
    }
  }

  /** Flattening changes only whitespace: the other characters survive, in order. */
  lemma {:induction false} StripFlat(s: string)
    ensures Strip(Flat(s)) == Strip(s)
    decreases |s|
  {
    if |s| > 0 {
      if IsSpace(s[0]) {
        StripFlat(DropSpaces(s[1..]));
        StripDropSpaces(s[1..]);
        assert Flat(s) == " " + Flat(DropSpaces(s[1..]));
      } else {
        StripFlat(s[1..]);
        assert Flat(s) == [s[0]] + Flat(s[1..]);
      }
    }
  }

  /** Trimming drops whitespace at both ends and nothing else. */
  lemma TrimSpec(s: string)
    ensures |Trim(s)| > 0 ==> !IsSpace(Trim(s)[0]) && !IsSpace(Trim(s)[|Trim(s)| - 1])
    ensures Strip(Trim(s)) == Strip(s)
  {
    StripDropSpaces(s);
    StripDropTrailingSpaces(DropSpaces(s));
  }

  /** `pieces.join(sep)`. */
  function Join(pieces: seq<string>, sep: string): (r: string)
    decreases |pieces|
  {
    if |pieces| == 0 then ""
    else if |pieces| == 1 then pieces[0]
    else pieces[0] + sep + Join(pieces[1..], sep)
  }

  /** The pieces one after another. */
  function Concat(pieces: seq<string>): string
    decreases |pieces|
  {
    if |pieces| == 0 then "" else pieces[0] + Concat(pieces[1..])
  }

  lemma StripAppend(a: string, b: string)
    ensures Strip(a + b) == Strip(a) + Strip(b)
  {
    Seqs.FilterAppend(a, b, NotSpace);
  }

  /** Joining with a space adds only whitespace. */
  lemma {:induction false} StripJoinSpace(pieces: seq<string>)
    ensures Strip(Join(pieces, " ")) == Concat(Seqs.Map(pieces, Strip))
    decreases |pieces|
  {
    if |pieces| == 1 {
      assert Seqs.Map(pieces, Strip)[1..] == [];
    } else if |pieces| > 1 {
      StripJoinSpace(pieces[1..]);
      assert Seqs.Map(pieces, Strip)[1..] == Seqs.Map(pieces[1..], Strip);
      StripAppend(pieces[0] + " ", Join(pieces[1..], " "));
      StripAppend(pieces[0], " ");
      assert Strip(" ") == "";
    }
  }

  /** Dropping empty pieces leaves the non-whitespace characters as they are. */
  lemma {:induction false} StripDropEmpty(pieces: seq<string>)
    ensures Concat(Seqs.Map(Seqs.Filter(pieces, NonEmpty), Strip)) == Concat(Seqs.Map(pieces, Strip))
    decreases |pieces|
  {
    if |pieces| > 0 {
      StripDropEmpty(pieces[1..]);
      assert Seqs.Map(pieces, Strip)[1..] == Seqs.Map(pieces[1..], Strip);
      if NonEmpty(pieces[0]) {
        var kept := Seqs.Filter(pieces, NonEmpty);
        assert kept == [pieces[0]] + Seqs.Filter(pieces[1..], NonEmpty);
        assert Seqs.Map(kept, Strip)[1..] == Seqs.Map(Seqs.Filter(pieces[1..], NonEmpty), Strip);
      } else {
        assert Strip(pieces[0]) == "";
      }
    }
  }

  predicate NonEmpty(s: string) {
    s != ""
  }

  /** The test `x == c`, as a function value. */
  function Is(c: char): char -> bool {
    x => x == c
  }

  /** `s.split(c)` for a one-character separator: the maximal pieces between occurrences of `c`. */
  function Split(s: string, c: char): (r: seq<string>)
    ensures |r| >= 1
    ensures forall i :: 0 <= i < |r| ==> c !in r[i]
    decreases |s|
  {
    var k := Seqs.FindIndex(s, Is(c));
    if k < 0 then [s] else [s[..k]] + Split(s[k + 1..], c)
  }

  /** Joining the pieces of a split with the separator gives back the string. */
  lemma {:induction false} JoinSplit(s: string, c: char)
    ensures Join(Split(s, c), [c]) == s
    decreases |s|
  {
    var k := Seqs.FindIndex(s, Is(c));
    if k >= 0 {
      var rest := Split(s[k + 1..], c);
      var pieces := Split(s, c);
      assert pieces == [s[..k]] + rest;
      assert pieces[1..] == rest;
      assert Join(pieces, [c]) == s[..k] + [c] + Join(rest, [c]);
      JoinSplit(s[k + 1..], c);
      assert s == s[..k] + [c] + s[k + 1..];
    }
  }

  /** Splitting a join whose pieces do not contain the separator gives back the pieces. */
  lemma {:induction false} SplitJoin(pieces: seq<string>, c: char)
    requires |pieces| >= 1
    requires forall i :: 0 <= i < |pieces| ==> c !in pieces[i]
    ensures Split(Join(pieces, [c]), c) == pieces
    decreases |pieces|
  {
    var s := Join(pieces, [c]);
    var k := Seqs.FindIndex(s, Is(c));
    if |pieces| == 1 {
      assert s == pieces[0];
    } else {
      var p := pieces[0];
      assert s == p + [c] + Join(pieces[1..], [c]);
      assert s[|p|] == c;
      assert forall j :: 0 <= j < |p| ==> s[j] == p[j];
      assert k == |p|;
      assert s[..k] == p;
      assert s[k + 1..] == Join(pieces[1..], [c]);
      SplitJoin(pieces[1..], c);
    }
  }

  predicate StartsWith(s: string, prefix: string) {
    |prefix| <= |s| && s[..|prefix|] == prefix
  }

  lemma StartsWithAppend(s: string, t: string, prefix: string)
    requires StartsWith(s, prefix)
    ensures StartsWith(s + t, prefix)
  {
    assert (s + t)[..|prefix|] == s[..|prefix|];
  }

  /** `sub` occurs in `s` at position `i`. */
  predicate OccursAt(s: string, sub: string, i: int) {
    0 <= i && i + |sub| <= |s| && s[i..i + |sub|] == sub
  }

  /** `s.indexOf(sub, from)`: the first position at or after `from` where `sub` occurs, or -1. */
  function IndexOfFrom(s: string, sub: string, from: nat): (r: int)
    ensures r == -1 || (from <= r && OccursAt(s, sub, r))
    ensures forall j :: from <= j && (r == -1 || j < r) ==> !OccursAt(s, sub, j)
    decreases |s| - from
  {
    if from + |sub| > |s| then -1
    else if s[from..from + |sub|] == sub then from
    else IndexOfFrom(s, sub, from + 1)
  }

  /** `s.indexOf(sub)`. */
  function IndexOf(s: string, sub: string): int {
    IndexOfFrom(s, sub, 0)
  }

  /** `s.includes(sub)`, and the test of a regular expression that is a plain literal. */
  predicate Contains(s: string, sub: string) {
    IndexOf(s, sub) >= 0
  }

  lemma ContainsAt(s: string, sub: string, i: int)
    requires OccursAt(s, sub, i)
    ensures Contains(s, sub)
  {
  }

  lemma ContainsAppend(s: string, t: string, sub: string)
    requires Contains(s, sub)
    ensures Contains(s + t, sub)
  {
    var i := IndexOf(s, sub);
    assert (s + t)[i..i + |sub|] == s[i..i + |sub|];
    ContainsAt(s + t, sub, i);
  }

  lemma ContainsSuffix(s: string, t: string)
    ensures Contains(s + t, t)
  {
    assert (s + t)[|s|..|s| + |t|] == t;
    ContainsAt(s + t, t, |s|);
  }

  /** `s.slice(from)` for a non-negative start. */
  function SliceFrom(s: string, from: nat): string {
    if from >= |s| then "" else s[from..]
  }

  function DigitChar(d: nat): char
    requires d < 10
  {
    "0123456789"[d]
  }

  function NatToString(n: nat): string
    decreases n
  {
    if n < 10 then [DigitChar(n)] else NatToString(n / 10) + [DigitChar(n % 10)]
  }

  /** The decimal rendering of an integer, as a template literal prints a number. */
  function IntToString(n: int): string {
    if n < 0 then "-" + NatToString(-n) else NatToString(n)
  }
}
