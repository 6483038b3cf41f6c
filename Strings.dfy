/**
 * The parts of Python's `str` that the classifier relies on, restricted to
 * ASCII: character classes, `lower()`, `split(sep)`, `strip()`, and the
 * code-point lexicographic order that `<` on strings, `sorted()` and the
 * sorted containers use.
 */
module Strings {

  predicate IsDigit(c: char) { '0' <= c <= '9' }

  predicate IsAsciiLetter(c: char) { 'a' <= c <= 'z' || 'A' <= c <= 'Z' }

  /** The regex character class `[a-zA-Z0-9]`. */
  predicate IsAsciiAlnum(c: char) { IsAsciiLetter(c) || IsDigit(c) }

  /** The regex character class `[0-9a-fA-F]`. */
  predicate IsHexDigit(c: char) { IsDigit(c) || 'a' <= c <= 'f' || 'A' <= c <= 'F' }

  /** The ASCII characters that `str.strip()` removes: tab, line feed, vertical tab,
      form feed, carriage return, the four separators 0x1c-0x1f, and space. */
  predicate IsSpace(c: char) { 9 <= c as int <= 13 || 28 <= c as int <= 31 || c == ' ' }

  predicate AllSpace(s: string) { forall k :: 0 <= k < |s| ==> IsSpace(s[k]) }

  predicate AllDigits(s: string) { forall k :: 0 <= k < |s| ==> IsDigit(s[k]) }

  predicate AllHexDigits(s: string) { forall k :: 0 <= k < |s| ==> IsHexDigit(s[k]) }

  // ---------------------------------------------------------------------------
  // lower()

  function LowerChar(c: char): char
  {
    if 'A' <= c <= 'Z' then (c as int + 32) as char else c
  }

  /** `s.lower()` on the ASCII letters; every other character is kept. */
  function Lower(s: string): string
  {
    seq(|s|, i requires 0 <= i < |s| => LowerChar(s[i]))
  }

  /** Lower-casing keeps a string without capital letters as it is. */
  lemma LowerWithoutCapitals(s: string)
    requires forall i :: 0 <= i < |s| ==> !('A' <= s[i] <= 'Z')
    ensures Lower(s) == s
  {
  }

  // ---------------------------------------------------------------------------
  // split(sep) and its inverse, sep.join(pieces)

  /** `s.split(sep)`: the maximal runs between separators, empty runs included,
      so there is always one more piece than there are separators. */
  function Split(s: string, sep: char): (pieces: seq<string>)
    ensures |pieces| >= 1
    ensures forall i :: 0 <= i < |pieces| ==> sep !in pieces[i]
  {
    if s == [] then [[]]
    else
      var rest := Split(s[1..], sep);
      if s[0] == sep then [[]] + rest else [[s[0]] + rest[0]] + rest[1..]
  }

  /** `sep.join(pieces)`. */
  function Join(pieces: seq<string>, sep: char): string
  {
    if |pieces| == 0 then []
    else if |pieces| == 1 then pieces[0]
    else pieces[0] + [sep] + Join(pieces[1..], sep)
  }

  /** Joining the pieces with the separator gives back the original string. */
  lemma {:induction false} JoinSplit(s: string, sep: char)
    ensures Join(Split(s, sep), sep) == s
  {
    if s != [] {
      JoinSplit(s[1..], sep);
      var rest := Split(s[1..], sep);
      if s[0] == sep {
        assert Split(s, sep) == [[]] + rest;
        assert ([[]] + rest)[1..] == rest;
      } else {
        var pieces := [[s[0]] + rest[0]] + rest[1..];
        assert Split(s, sep) == pieces;
        if |rest| == 1 {
          assert rest == [rest[0]];
        } else {
          assert pieces[1..] == rest[1..];
          assert Join(rest, sep) == rest[0] + [sep] + Join(rest[1..], sep);
        }
      }
    }
  }

  lemma {:induction false} SplitWithoutSep(s: string, sep: char)
    requires sep !in s
    ensures Split(s, sep) == [s]
  {
    if s != [] {
      assert sep !in s[1..];
      SplitWithoutSep(s[1..], sep);
      assert [s[0]] + s[1..] == s;
    }
  }

  lemma {:induction false} SplitAfterPiece(a: string, b: string, sep: char)
    requires sep !in a
    ensures Split(a + [sep] + b, sep) == [a] + Split(b, sep)
  {
    if a == [] {
      assert [] + [sep] + b == [sep] + b;
      assert ([sep] + b)[1..] == b;
    } else {
      assert (a + [sep] + b)[1..] == a[1..] + [sep] + b;
      SplitAfterPiece(a[1..], b, sep);
      assert [a[0]] + a[1..] == a;
    }
  }

  /** Splitting a join of separator-free pieces gives back the pieces. */
  lemma {:induction false} SplitJoin(pieces: seq<string>, sep: char)
    requires |pieces| >= 1
    requires forall i :: 0 <= i < |pieces| ==> sep !in pieces[i]
    ensures Split(Join(pieces, sep), sep) == pieces
  {
    if |pieces| == 1 {
      SplitWithoutSep(pieces[0], sep);
    } else {
      SplitJoin(pieces[1..], sep);
      SplitAfterPiece(pieces[0], Join(pieces[1..], sep), sep);
      assert [pieces[0]] + pieces[1..] == pieces;
    }
  }

  /** There is one piece more than there are separators. */
  lemma {:induction false} SplitCount(s: string, sep: char)
    ensures |Split(s, sep)| == multiset(s)[sep] + 1
  {
    if s != [] {
      SplitCount(s[1..], sep);
      assert s == [s[0]] + s[1..];
      assert multiset(s) == multiset{s[0]} + multiset(s[1..]);
    }
  }

  // ---------------------------------------------------------------------------
  // Flattening a mapped list: [y for w in ws for y in f(w)]

  function FlatMap(ws: seq<string>, f: string -> seq<string>): seq<string>
  {
    if ws == [] then [] else FlatMap(ws[..|ws| - 1], f) + f(ws[|ws| - 1])
  }

  lemma {:induction false} FlatMapConcat(a: seq<string>, b: seq<string>, f: string -> seq<string>)
    ensures FlatMap(a + b, f) == FlatMap(a, f) + FlatMap(b, f)
  {
    if b == [] {
      assert a + b == a;
    } else {
      FlatMapConcat(a, b[..|b| - 1], f);
      assert (a + b)[..|a + b| - 1] == a + b[..|b| - 1];
    }
  }

  lemma FlatMapSingleton(x: string, f: string -> seq<string>)
    ensures FlatMap([x], f) == f(x)
  {
    assert [x][..0] == [];
  }

  lemma FlatMapPair(x: string, y: string, f: string -> seq<string>)
    ensures FlatMap([x, y], f) == f(x) + f(y)
  {
    assert [x, y][..1] == [x];
    FlatMapSingleton(x, f);
  }

  /** Some element of `ws` maps to a list holding `x` exactly when some element
      of all but the last does, or the last one does. */
  lemma SomeMemberStep(ws: seq<string>, init: seq<string>, f: string -> seq<string>, x: string)
    requires ws != [] && init == ws[..|ws| - 1]
    ensures (exists i :: 0 <= i < |ws| && x in f(ws[i]))
            <==> (exists i :: 0 <= i < |init| && x in f(init[i])) || x in f(ws[|ws| - 1])
  {
    assert forall i :: 0 <= i < |init| ==> init[i] == ws[i];
  }

  lemma {:induction false} FlatMapMember(ws: seq<string>, f: string -> seq<string>, x: string)
    ensures x in FlatMap(ws, f) <==> exists i :: 0 <= i < |ws| && x in f(ws[i])
  {
    if ws != [] {
      var init := ws[..|ws| - 1];
      FlatMapMember(init, f, x);
      SomeMemberStep(ws, init, f, x);
      assert FlatMap(ws, f) == FlatMap(init, f) + f(ws[|ws| - 1]);
    }
  }

  // ---------------------------------------------------------------------------
  // strip()

  function StripLeft(s: string): string
  {
    if |s| > 0 && IsSpace(s[0]) then StripLeft(s[1..]) else s
  }

  function StripRight(s: string): string
  {
    if |s| > 0 && IsSpace(s[|s| - 1]) then StripRight(s[..|s| - 1]) else s
  }

  /** `s.strip()`. */
  function Strip(s: string): string
  {
    StripRight(StripLeft(s))
  }

  /** `s[..i]` is the leading whitespace of `s`. */
  predicate LeftCut(s: string, i: int)
  {
    0 <= i <= |s| && AllSpace(s[..i]) && (i < |s| ==> !IsSpace(s[i]))
  }

  /** `s[j..]` is the trailing whitespace of `s`. */
  predicate RightCut(s: string, j: int)
  {
    0 <= j <= |s| && AllSpace(s[j..]) && (0 < j ==> !IsSpace(s[j - 1]))
  }

  lemma {:induction false} StripLeftShape(s: string)
    ensures exists i :: LeftCut(s, i) && StripLeft(s) == s[i..]
  {
    if |s| > 0 && IsSpace(s[0]) {
      StripLeftShape(s[1..]);
      var i :| LeftCut(s[1..], i) && StripLeft(s[1..]) == s[1..][i..];
      LeftCutAfterSpace(s, i);
    } else {
      assert s[0..] == s && s[..0] == [];
      assert LeftCut(s, 0);
    }
  }

  /** Leading whitespace one character longer than that of `s[1..]`. */
  lemma LeftCutAfterSpace(s: string, i: int)
    requires |s| > 0 && IsSpace(s[0]) && LeftCut(s[1..], i)
    ensures LeftCut(s, i + 1) && s[1..][i..] == s[i + 1..]
  {
    assert s[..i + 1] == [s[0]] + s[1..][..i];
    if i + 1 < |s| { assert s[i + 1] == s[1..][i]; }
  }

  lemma {:induction false} StripRightShape(s: string)
    ensures exists j :: RightCut(s, j) && StripRight(s) == s[..j]
  {
    if |s| > 0 && IsSpace(s[|s| - 1]) {
      var t := s[..|s| - 1];
      StripRightShape(t);
      var j :| RightCut(t, j) && StripRight(t) == t[..j];
      assert t[..j] == s[..j];
      forall k | 0 <= k < |s[j..]| ensures IsSpace(s[j..][k]) {
        if j + k < |t| { assert s[j..][k] == t[j..][k]; }
      }
      assert 0 < j ==> s[j - 1] == t[j - 1];
      assert RightCut(s, j);
    } else {
      assert s[..|s|] == s && s[|s|..] == [];
      assert RightCut(s, |s|);
    }
  }

  /** `s[i..j]` is what is left of `s` once the leading and the trailing
      whitespace are cut off. */
  predicate StripCut(s: string, i: int, j: int)
  {
    0 <= i <= j <= |s| && AllSpace(s[..i]) && AllSpace(s[j..])
    && (i < j ==> !IsSpace(s[i]) && !IsSpace(s[j - 1]))
  }

  lemma CutsCombine(s: string, i: int, j: int)
    requires LeftCut(s, i) && RightCut(s[i..], j)
    ensures StripCut(s, i, i + j) && s[i..][..j] == s[i..i + j]
  {
    var t := s[i..];
    assert t[j..] == s[i + j..];
    if 0 < j { assert t[j - 1] == s[i + j - 1]; }
  }

  /** The stripped string is the slice that is left when the leading and the
      trailing whitespace are cut off; it neither starts nor ends with
      whitespace. */
  lemma StripShape(s: string)
    ensures exists i, j :: StripCut(s, i, j) && Strip(s) == s[i..j]
  {
    StripLeftShape(s);
    var i :| LeftCut(s, i) && StripLeft(s) == s[i..];
    StripRightShape(s[i..]);
    var j :| RightCut(s[i..], j) && StripRight(s[i..]) == s[i..][..j];
    CutsCombine(s, i, j);
  }

  /** Stripping twice is stripping once. */
  lemma StripIdempotent(s: string)
    ensures Strip(Strip(s)) == Strip(s)
  {
    StripShape(s);
    var r := Strip(s);
    if |r| > 0 {
      var i, j :| StripCut(s, i, j) && r == s[i..j];
      assert !IsSpace(r[0]) && !IsSpace(r[|r| - 1]);
    }
  }

  lemma AllSpaceConcat(a: string, b: string)
    requires AllSpace(a) && AllSpace(b)
    ensures AllSpace(a + b)
  {
    forall k | 0 <= k < |a + b| ensures IsSpace((a + b)[k]) {
      if k < |a| { assert (a + b)[k] == a[k]; } else { assert (a + b)[k] == b[k - |a|]; }
    }
  }

  /** The stripped string is empty exactly when the string is all whitespace. */
  lemma StripEmpty(s: string)
    ensures Strip(s) == [] <==> AllSpace(s)
  {
    StripShape(s);
    var i, j :| StripCut(s, i, j) && Strip(s) == s[i..j];
    if i == j {
      assert s == s[..i] + s[j..];
      AllSpaceConcat(s[..i], s[j..]);
    } else {
      assert !IsSpace(s[i]);
    }
  }

  // ---------------------------------------------------------------------------
  // Code-point lexicographic order, as Python compares strings

  predicate LexLess(a: string, b: string)
    decreases |a|
  {
    if |a| == 0 then |b| > 0
    else |b| > 0 && (a[0] < b[0] || (a[0] == b[0] && LexLess(a[1..], b[1..])))
  }

  predicate LexLe(a: string, b: string) { a == b || LexLess(a, b) }

  lemma {:induction false} LexLessIrreflexive(a: string)
    ensures !LexLess(a, a)
  {
    if |a| > 0 { LexLessIrreflexive(a[1..]); }
  }

  lemma {:induction false} LexLessTransitive(a: string, b: string, c: string)
    requires LexLess(a, b) && LexLess(b, c)
    ensures LexLess(a, c)
  {
    if |a| > 0 && a[0] == b[0] && b[0] == c[0] {
      LexLessTransitive(a[1..], b[1..], c[1..]);
    }
  }

  /** Any two different strings are ordered one way or the other. */
  lemma {:induction false} LexLessTotal(a: string, b: string)
    ensures a == b || LexLess(a, b) || LexLess(b, a)
  {
    if |a| > 0 && |b| > 0 && a[0] == b[0] {
      LexLessTotal(a[1..], b[1..]);
      if a[1..] == b[1..] {
        assert a == [a[0]] + a[1..] && b == [b[0]] + b[1..];
      }
    }
  }

  lemma LexLessAsymmetric(a: string, b: string)
    requires LexLess(a, b)
    ensures !LexLess(b, a)
  {
    if LexLess(b, a) {
      LexLessTransitive(a, b, a);
      LexLessIrreflexive(a);
    }
  }

  lemma LexLeTransitive(a: string, b: string, c: string)
    requires LexLe(a, b) && LexLe(b, c)
    ensures LexLe(a, c)
  {
    if a != b && b != c { LexLessTransitive(a, b, c); }
  }

  // ---------------------------------------------------------------------------
  // Sorted sequences of strings

  /** Ascending, duplicates allowed (`sorted()` on a list of strings). */
  predicate Sorted(s: seq<string>)
  {
    forall i, j :: 0 <= i < j < |s| ==> LexLe(s[i], s[j])
  }

  /** Ascending without duplicates (the key order of a sorted set or dict). */
  predicate StrictlySorted(s: seq<string>)
  {
    forall i, j :: 0 <= i < j < |s| ==> LexLess(s[i], s[j])
  }

  /** Inserts `x` in front of the first element that `x` does not exceed. */
  function InsertSorted(s: seq<string>, x: string): (r: seq<string>)
    ensures multiset(r) == multiset(s) + multiset{x}
  {
    if s == [] then [x]
    else if LexLe(x, s[0]) then [x] + s
    else
      assert s == [s[0]] + s[1..];
      [s[0]] + InsertSorted(s[1..], x)
  }

  lemma {:induction false} InsertSortedSorted(s: seq<string>, x: string)
    requires Sorted(s)
    ensures Sorted(InsertSorted(s, x))
  {
    if s == [] {
    } else if LexLe(x, s[0]) {
      forall j | 0 < j < |s| ensures LexLe(x, s[j]) { LexLeTransitive(x, s[0], s[j]); }
    } else {
      var t := InsertSorted(s[1..], x);
      InsertSortedSorted(s[1..], x);
      LexLessTotal(x, s[0]);
      forall j | 0 <= j < |t| ensures LexLe(s[0], t[j]) {
        assert t[j] in multiset(t);
        if t[j] != x {
          assert t[j] in multiset(s[1..]);
          var k :| 0 <= k < |s[1..]| && s[1..][k] == t[j];
          assert s[k + 1] == t[j];
        }
      }
    }
  }

  lemma {:induction false} InsertSortedStrictlySorted(s: seq<string>, x: string)
    requires StrictlySorted(s) && x !in s
    ensures StrictlySorted(InsertSorted(s, x))
  {
    if s == [] {
    } else if LexLe(x, s[0]) {
      forall j | 0 <= j < |s| ensures LexLess(x, s[j]) {
        if j > 0 { LexLessTransitive(x, s[0], s[j]); }
      }
    } else {
      var t := InsertSorted(s[1..], x);
      assert x !in s[1..];
      InsertSortedStrictlySorted(s[1..], x);
      LexLessTotal(x, s[0]);
      forall j | 0 <= j < |t| ensures LexLess(s[0], t[j]) {
        assert t[j] in multiset(t);
        if t[j] != x {
          assert t[j] in multiset(s[1..]);
          var k :| 0 <= k < |s[1..]| && s[1..][k] == t[j];
          assert s[k + 1] == t[j];
        }
      }
    }
  }

  /** `sorted(l)` for a list of strings: insertion sort. */
  function SortStrings(l: seq<string>): (r: seq<string>)
    ensures multiset(r) == multiset(l)
  {
    if l == [] then []
    else
      assert l == [l[0]] + l[1..];
      InsertSorted(SortStrings(l[1..]), l[0])
  }

  lemma {:induction false} SortStringsSorted(l: seq<string>)
    ensures Sorted(SortStrings(l))
  {
    if l != [] {
      SortStringsSorted(l[1..]);
      InsertSortedSorted(SortStrings(l[1..]), l[0]);
    }
  }

  lemma HeadIsMember(s: seq<string>)
    ensures s != [] ==> s[0] in s
  {
  }

  /** Two strictly sorted sequences with the same elements are the same
      sequence: a set has only one sorted order. */
  lemma {:induction false} SortedUnique(a: seq<string>, b: seq<string>)
    requires StrictlySorted(a) && StrictlySorted(b)
    requires forall x :: x in a <==> x in b
    ensures a == b
  {
    if a != [] && b != [] {
      assert a[0] in a && b[0] in b;
      var i :| 0 <= i < |b| && b[i] == a[0];
      var j :| 0 <= j < |a| && a[j] == b[0];
      if i > 0 {
        assert LexLess(b[0], a[0]);
        if j > 0 {
          assert LexLess(a[0], b[0]);
          LexLessAsymmetric(a[0], b[0]);
        } else {
          LexLessIrreflexive(a[0]);
        }
      }
      assert a[0] == b[0];
      forall x ensures x in a[1..] <==> x in b[1..] {
        if x in a[1..] {
          var k :| 0 <= k < |a[1..]| && a[1..][k] == x;
          assert LexLess(a[0], a[k + 1]);
          LexLessIrreflexive(x);
          assert x in b && x != b[0];
          assert b == [b[0]] + b[1..];
        }
        if x in b[1..] {
          var k :| 0 <= k < |b[1..]| && b[1..][k] == x;
          assert LexLess(b[0], b[k + 1]);
          LexLessIrreflexive(x);
          assert x in a && x != a[0];
          assert a == [a[0]] + a[1..];
        }
      }
      SortedUnique(a[1..], b[1..]);
      assert a == [a[0]] + a[1..] && b == [b[0]] + b[1..];
    } else if a != [] {
      HeadIsMember(a);
      assert false;
    } else if b != [] {
      HeadIsMember(b);
      assert false;
    }
  }
}
