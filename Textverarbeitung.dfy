/**
 * Token filtering and word-frequency bookkeeping (textverarbeitung.py):
 * the validity filter for tokens, the cleaning pipeline, the rational
 * frequency map, its descending `(weight, word)` listing and the in-place
 * merge of two frequency maps.
 *
 * The stemmer and the stop-word list come from a language library; here they
 * are the parameters `stem` and `stopWords`.
 */
module Textverarbeitung {
  import opened Wrappers
  import opened Strings

  // ===========================================================================
  // isValidWord

  /** Python's `$` matches at the very end of the string and also just before
      a final line feed; matching up to `$` is matching all of this string. */
  function DropFinalNewline(s: string): string
  {
    if |s| > 0 && s[|s| - 1] == '\n' then s[..|s| - 1] else s
  }

  /** `re.match('[a-zA-Z0-9]', w)`: only the first character is looked at. */
  predicate StartsAlnum(w: string)
  {
    |w| > 0 && IsAsciiAlnum(w[0])
  }

  /** `re.match('0[xX][0-9a-fA-F]+$', w)`. */
  predicate MatchesHexLiteral(w: string)
  {
    var t := DropFinalNewline(w);
    |t| >= 3 && t[0] == '0' && (t[1] == 'x' || t[1] == 'X') && AllHexDigits(t[2..])
  }

  predicate IsDecimalSeparator(c: char) { c == '.' || c == ',' }

  /** Length of the longest run of digits at the start of `s`. */
  function DigitRun(s: string): (n: nat)
    ensures n <= |s|
    ensures AllDigits(s[..n])
    ensures n < |s| ==> !IsDigit(s[n])
  {
    if |s| > 0 && IsDigit(s[0]) then
      var n := 1 + DigitRun(s[1..]);
      assert s[..n] == [s[0]] + s[1..][..n - 1];
      n
    else 0
  }

  /** `re.match('\d+[.,]?\d*$', w)`, computed the way a backtracking matcher
      settles it: the greedy digit run, then at most one separator, then digits
      to the end. */
  predicate MatchesDecimalNumber(w: string)
  {
    var t := DropFinalNewline(w);
    var n := DigitRun(t);
    n > 0 && (n == |t| || (IsDecimalSeparator(t[n]) && AllDigits(t[n + 1..])))
  }

  /** The language of the regular expression `\d+[.,]?\d*` itself: a non-empty
      digit run `t[..i]`, an optional separator `t[i..j]`, a digit run `t[j..]`. */
  ghost predicate InDecimalLanguage(t: string)
  {
    exists i, j :: 1 <= i <= j <= |t| && j <= i + 1 && AllDigits(t[..i])
                   && (j == i + 1 ==> IsDecimalSeparator(t[i])) && AllDigits(t[j..])
  }

  /** `isValidWord`: starts with an ASCII letter or digit, and is neither a
      hexadecimal literal nor a decimal number. */
  predicate IsValidWord(w: string)
  {
    StartsAlnum(w) && !MatchesHexLiteral(w) && !MatchesDecimalNumber(w)
  }

  /** A digit prefix of length `i` makes the greedy run at least that long;
      when it is followed by a non-digit or the end, exactly that long. */
  lemma {:induction false} DigitRunOfPrefix(t: string, i: nat)
    requires i <= |t| && AllDigits(t[..i])
    ensures DigitRun(t) >= i
    ensures i == |t| || !IsDigit(t[i]) ==> DigitRun(t) == i
  {
    if i > 0 {
      assert t[1..][..i - 1] == t[..i][1..];
      assert IsDigit(t[..i][0]);
      DigitRunOfPrefix(t[1..], i - 1);
    }
  }

  /** The greedy computation of the decimal pattern accepts exactly the
      strings of the pattern's language. */
  lemma DecimalMatchIsLanguage(w: string)
    ensures MatchesDecimalNumber(w) <==> InDecimalLanguage(DropFinalNewline(w))
  {
    var t := DropFinalNewline(w);
    var n := DigitRun(t);
    if MatchesDecimalNumber(w) {
      if n == |t| {
        assert t[n..] == [];
        assert 1 <= n <= n <= |t| && AllDigits(t[..n]) && AllDigits(t[n..]);
      } else {
        assert 1 <= n <= n + 1 <= |t| && AllDigits(t[..n]) && IsDecimalSeparator(t[n])
               && AllDigits(t[n + 1..]);
      }
    }
    if InDecimalLanguage(t) {
      var i, j :| 1 <= i <= j <= |t| && j <= i + 1 && AllDigits(t[..i])
                  && (j == i + 1 ==> IsDecimalSeparator(t[i])) && AllDigits(t[j..]);
      if j == i {
        forall k | 0 <= k < |t[..|t|]| ensures IsDigit(t[..|t|][k]) {
          if k < i { assert t[k] == t[..i][k]; } else { assert t[k] == t[j..][k - j]; }
        }
        DigitRunOfPrefix(t, |t|);
      } else {
        DigitRunOfPrefix(t, i);
        assert t[n + 1..] == t[j..];
      }
    }
  }

  /** Nothing but the first character is checked for being alphanumeric: a
      token that starts with a letter is valid whatever follows. */
  lemma LetterFirstIsValid(w: string)
    requires |w| > 0 && IsAsciiLetter(w[0])
    ensures IsValidWord(w)
  {
    var t := DropFinalNewline(w);
    if |t| > 0 {
      assert t[0] == w[0];
    }
  }

  /** The empty string and every string that starts with anything but an ASCII
      letter or digit are rejected. */
  lemma InvalidWithoutAlnumStart(w: string)
    requires |w| == 0 || !IsAsciiAlnum(w[0])
    ensures !IsValidWord(w)
  {
  }

  /** Hexadecimal literals such as `0xbadc0ffee` are rejected. */
  lemma HexLiteralInvalid(w: string)
    requires |w| >= 3 && w[0] == '0' && (w[1] == 'x' || w[1] == 'X') && AllHexDigits(w[2..])
    ensures !IsValidWord(w)
  {
    assert w[|w| - 1] != '\n' by { assert w[|w| - 1] == w[2..][|w| - 3]; }
  }

  /** Decimal numbers such as `32`, `325,24` and `345.6` are rejected. */
  lemma DecimalNumberInvalid(w: string)
    requires InDecimalLanguage(w)
    ensures !IsValidWord(w)
  {
    var i, j :| 1 <= i <= j <= |w| && j <= i + 1 && AllDigits(w[..i])
                && (j == i + 1 ==> IsDecimalSeparator(w[i])) && AllDigits(w[j..]);
    var last := |w| - 1;
    assert IsDigit(w[last]) || IsDecimalSeparator(w[last]) by {
      if last < i { assert w[last] == w[..i][last]; }
      else if last >= j { assert w[last] == w[j..][last - j]; }
    }
    assert DropFinalNewline(w) == w;
    DecimalMatchIsLanguage(w);
  }

  lemma LowerSlices(s: string, i: nat)
    requires i <= |s|
    ensures Lower(s)[i..] == Lower(s[i..]) && Lower(s)[..i] == Lower(s[..i])
  {
  }

  lemma LowerKeepsAllDigits(s: string)
    ensures AllDigits(Lower(s)) == AllDigits(s)
  {
    if !AllDigits(s) {
      var k :| 0 <= k < |s| && !IsDigit(s[k]);
      assert !IsDigit(Lower(s)[k]);
    }
  }

  lemma LowerKeepsAllHexDigits(s: string)
    ensures AllHexDigits(Lower(s)) == AllHexDigits(s)
  {
    if !AllHexDigits(s) {
      var k :| 0 <= k < |s| && !IsHexDigit(s[k]);
      assert !IsHexDigit(Lower(s)[k]);
    }
  }

  lemma {:induction false} LowerKeepsDigitRun(t: string)
    ensures DigitRun(Lower(t)) == DigitRun(t)
  {
    if |t| > 0 {
      LowerSlices(t, 1);
      LowerKeepsDigitRun(t[1..]);
    }
  }

  lemma LowerDropFinalNewline(w: string)
    ensures DropFinalNewline(Lower(w)) == Lower(DropFinalNewline(w))
  {
    if |w| > 0 { LowerSlices(w, |w| - 1); }
  }

  /** Lower-casing does not change whether a token is valid, so validating
      before or after lower-casing comes to the same. */
  lemma LowerKeepsValidity(w: string)
    ensures IsValidWord(Lower(w)) == IsValidWord(w)
  {
    var t := DropFinalNewline(w);
    var u := Lower(t);
    LowerDropFinalNewline(w);
    LowerKeepsDigitRun(t);
    assert MatchesHexLiteral(Lower(w)) == MatchesHexLiteral(w) by {
      if |t| >= 3 {
        LowerSlices(t, 2);
        LowerKeepsAllHexDigits(t[2..]);
      }
    }
    assert MatchesDecimalNumber(Lower(w)) == MatchesDecimalNumber(w) by {
      var n := DigitRun(t);
      if n < |t| {
        LowerSlices(t, n + 1);
        LowerKeepsAllDigits(t[n + 1..]);
      }
    }
  }

  /** The valid words the tests name. */
  lemma ValidWordExamples()
    ensures IsValidWord("bit") && IsValidWord("32bit") && IsValidWord("32-times")
  {
    LetterFirstIsValid("bit");
    assert DigitRun("32bit") == 2;
    assert DigitRun("32-times") == 2;
  }

  /** The invalid words the tests name: a hexadecimal literal and three
      numbers. */
  lemma InvalidWordExamples()
    ensures !IsValidWord("32") && !IsValidWord("0xbadc0ffee")
    ensures !IsValidWord("325,24") && !IsValidWord("345.6")
  {
    HexLiteralInvalid("0xbadc0ffee");
    DigitsInvalid("32");
    assert "325" + [','] + "24" == "325,24";
    SeparatedDigitsInvalid("325", ',', "24");
    assert "345" + ['.'] + "6" == "345.6";
    SeparatedDigitsInvalid("345", '.', "6");
  }

  /** A run of digits is a number, not a word. */
  lemma DigitsInvalid(d: string)
    requires |d| > 0 && AllDigits(d)
    ensures !IsValidWord(d)
  {
    assert DropFinalNewline(d) == d;
    assert d[..|d|] == d;
    DigitRunOfPrefix(d, |d|);
  }

  /** Digits, one decimal separator and digits are a number, not a word. */
  lemma SeparatedDigitsInvalid(a: string, sep: char, b: string)
    requires |a| > 0 && AllDigits(a) && IsDecimalSeparator(sep) && AllDigits(b)
    ensures !IsValidWord(a + [sep] + b)
  {
    var w := a + [sep] + b;
    assert DropFinalNewline(w) == w;
    assert w[..|a|] == a && w[|a|] == sep && w[|a| + 1..] == b;
    DigitRunOfPrefix(w, |a|);
  }

  // ===========================================================================
  // cleanWordList

  /** The hyphen pieces of a lower-cased token. */
  function Pieces(w: string): seq<string>
  {
    Split(Lower(w), '-')
  }

  /** The stem of a piece, or nothing when the piece is invalid. */
  function StemIfValid(p: string, stem: string -> string): seq<string>
  {
    if IsValidWord(p) then [stem(p)] else []
  }

  /** What the inner loop of `cleanWordList` appends for the pieces `ps`: the
      stem of every valid piece, in order. */
  function StemValidPieces(ps: seq<string>, stem: string -> string): seq<string>
  {
    FlatMap(ps, p => StemIfValid(p, stem))
  }

  /** What `cleanWordList` appends for one input token: nothing when the
      lower-cased token is invalid, otherwise its stemmed valid pieces. */
  function CleanWord(w: string, stem: string -> string): seq<string>
  {
    if IsValidWord(Lower(w)) then StemValidPieces(Pieces(w), stem) else []
  }

  /** The list `cleanWordList` returns. */
  function CleanWords(ws: seq<string>, stem: string -> string): seq<string>
  {
    FlatMap(ws, w => CleanWord(w, stem))
  }

  /** `cleanWordList`: lower-case every token, drop the invalid ones, split the
      others on `-` and keep the stem of every valid piece. */
  method CleanWordList(inList: seq<string>, stem: string -> string) returns (outList: seq<string>)
    ensures outList == CleanWords(inList, stem)
  {
    outList := [];
    var lowered := seq(|inList|, i requires 0 <= i < |inList| => Lower(inList[i]));
    var n := 0;
    while n < |lowered|
      invariant 0 <= n <= |lowered|
      invariant outList == CleanWords(inList[..n], stem)
    {
      CleanWordsStep(inList, n, stem);
      var word := lowered[n];
      if IsValidWord(word) {
        outList := AppendValidStems(outList, Split(word, '-'), stem);
      }
      n := n + 1;
    }
    assert inList[..n] == inList;
  }

  /** The inner loop of `cleanWordList`: appends the stem of every valid
      piece, in order. */
  method AppendValidStems(outList: seq<string>, pieces: seq<string>, stem: string -> string)
    returns (r: seq<string>)
    ensures r == outList + StemValidPieces(pieces, stem)
  {
    r := outList;
    var k := 0;
    while k < |pieces|
      invariant 0 <= k <= |pieces|
      invariant r == outList + StemValidPieces(pieces[..k], stem)
    {
      StemValidPiecesStep(pieces, k, stem);
      var splitWord := pieces[k];
      if IsValidWord(splitWord) {
        r := r + [stem(splitWord)];
      }
      k := k + 1;
    }
    assert pieces[..k] == pieces;
  }

  /** One more token of the outer loop of `cleanWordList`. */
  lemma CleanWordsStep(ws: seq<string>, n: nat, stem: string -> string)
    requires n < |ws|
    ensures CleanWords(ws[..n + 1], stem) == CleanWords(ws[..n], stem) + CleanWord(ws[n], stem)
  {
    assert ws[..n + 1][..n] == ws[..n];
  }

  /** One more piece of the inner loop of `cleanWordList`. */
  lemma StemValidPiecesStep(ps: seq<string>, k: nat, stem: string -> string)
    requires k < |ps|
    ensures StemValidPieces(ps[..k + 1], stem) == StemValidPieces(ps[..k], stem) + StemIfValid(ps[k], stem)
  {
    assert ps[..k + 1][..k] == ps[..k];
  }

  /** Cleaning works token by token: the output for a concatenation is the
      concatenation of the outputs, so input order is preserved. */
  lemma CleanWordsConcat(a: seq<string>, b: seq<string>, stem: string -> string)
    ensures CleanWords(a + b, stem) == CleanWords(a, stem) + CleanWords(b, stem)
  {
    FlatMapConcat(a, b, w => CleanWord(w, stem));
  }

  /** Piece `j` of token `w` yields output `x`: the lower-cased token is valid,
      the piece is valid and `x` is its stem. */
  predicate Yields(w: string, j: int, stem: string -> string, x: string)
  {
    IsValidWord(Lower(w)) && 0 <= j < |Pieces(w)| && IsValidWord(Pieces(w)[j]) && x == stem(Pieces(w)[j])
  }

  lemma CleanWordMember(w: string, stem: string -> string, x: string)
    ensures x in CleanWord(w, stem) <==> exists j :: Yields(w, j, stem, x)
  {
    var ps := Pieces(w);
    if IsValidWord(Lower(w)) {
      assert CleanWord(w, stem) == FlatMap(ps, p => StemIfValid(p, stem));
      FlatMapMember(ps, p => StemIfValid(p, stem), x);
      if x in CleanWord(w, stem) {
        var j :| 0 <= j < |ps| && x in StemIfValid(ps[j], stem);
        assert Yields(w, j, stem, x);
      }
      if exists j :: Yields(w, j, stem, x) {
        var j :| Yields(w, j, stem, x);
        assert x in StemIfValid(ps[j], stem);
      }
    }
  }

  /** Every output word is the stem of a valid hyphen piece of a valid
      lower-cased input token, and every such stem is in the output. */
  lemma CleanWordsMember(ws: seq<string>, stem: string -> string, x: string)
    ensures x in CleanWords(ws, stem) <==> exists i, j :: 0 <= i < |ws| && Yields(ws[i], j, stem, x)
  {
    FlatMapMember(ws, w => CleanWord(w, stem), x);
    forall i | 0 <= i < |ws|
      ensures x in CleanWord(ws[i], stem) <==> exists j :: Yields(ws[i], j, stem, x)
    {
      CleanWordMember(ws[i], stem, x);
    }
  }

  /** A token that is invalid as a whole contributes nothing, even when some
      of its pieces would be valid on their own: `-ab` yields nothing although
      `ab` is valid. */
  lemma InvalidTokenContributesNothing(stem: string -> string)
    ensures IsValidWord("ab") && CleanWords(["-ab"], stem) == []
  {
    LetterFirstIsValid("ab");
    assert CleanWords(["-ab"], stem) == CleanWords([], stem) + CleanWord("-ab", stem);
    assert Lower("-ab")[0] == '-';
  }

  /** A token that starts with a letter and has no hyphen comes out as the
      stem of its lower-cased form. */
  lemma PlainWordYieldsItsStem(w: string, stem: string -> string)
    requires |w| > 0 && IsAsciiLetter(w[0]) && '-' !in w
    ensures CleanWord(w, stem) == [stem(Lower(w))]
  {
    var l := Lower(w);
    LetterFirstIsValid(w);
    LowerKeepsValidity(w);
    assert '-' !in l by {
      forall k | 0 <= k < |l| ensures l[k] != '-' { assert w[k] != '-'; }
    }
    SplitWithoutSep(l, '-');
    FlatMapSingleton(l, p => StemIfValid(p, stem));
  }

  /** A token that is invalid even after lower-casing yields nothing. */
  lemma InvalidWordYieldsNothing(w: string, stem: string -> string)
    requires !IsValidWord(w)
    ensures CleanWord(w, stem) == []
  {
    LowerKeepsValidity(w);
  }

  /** A valid token whose lower-cased form is two pieces joined by one
      hyphen yields what those two lower-case pieces yield. */
  lemma TwoPieceWord(w: string, p: string, q: string, stem: string -> string)
    requires Lower(w) == p + ['-'] + q && '-' !in p && '-' !in q
    requires IsValidWord(w)
    ensures CleanWord(w, stem) == StemIfValid(p, stem) + StemIfValid(q, stem)
  {
    LowerKeepsValidity(w);
    SplitAfterPiece(p, q, '-');
    SplitWithoutSep(q, '-');
    assert Pieces(w) == [p, q];
    FlatMapPair(p, q, x => StemIfValid(x, stem));
  }

  /** Two lower-case words starting with letters, joined by a hyphen, give
      the stems of both. */
  lemma WordPair(p: string, q: string, stem: string -> string)
    requires |p| > 0 && IsAsciiLetter(p[0]) && '-' !in p
    requires |q| > 0 && IsAsciiLetter(q[0]) && '-' !in q
    requires forall k :: 0 <= k < |p| ==> !('A' <= p[k] <= 'Z')
    requires forall k :: 0 <= k < |q| ==> !('A' <= q[k] <= 'Z')
    ensures CleanWord(p + ['-'] + q, stem) == [stem(p), stem(q)]
  {
    var w := p + ['-'] + q;
    assert w[0] == p[0];
    LetterFirstIsValid(w);
    LetterFirstIsValid(p);
    LetterFirstIsValid(q);
    assert forall k :: 0 <= k < |w| ==> !('A' <= w[k] <= 'Z') by {
      forall k | 0 <= k < |w| ensures !('A' <= w[k] <= 'Z') {
        if k < |p| { assert w[k] == p[k]; } else if k > |p| { assert w[k] == q[k - |p| - 1]; }
      }
    }
    LowerWithoutCapitals(w);
    TwoPieceWord(w, p, q, stem);
  }

  lemma HyphenPairExample(stem: string -> string)
    ensures CleanWord("pigs-whistle", stem) == [stem("pigs"), stem("whistle")]
  {
    assert "pigs" + ['-'] + "whistle" == "pigs-whistle";
    WordPair("pigs", "whistle", stem);
  }

  /** A digit run, a hyphen and a lower-case word starting with a letter is
      a valid token, but its number piece is not: only the word's stem comes
      out. */
  lemma NumberThenWord(d: string, q: string, stem: string -> string)
    requires |d| > 0 && AllDigits(d)
    requires |q| > 0 && IsAsciiLetter(q[0]) && '-' !in q
    requires forall k :: 0 <= k < |q| ==> !('A' <= q[k] <= 'Z')
    ensures CleanWord(d + ['-'] + q, stem) == [stem(q)]
  {
    var w := d + ['-'] + q;
    var t := DropFinalNewline(w);
    assert t[..|d|] == d && t[|d|] == '-';
    DigitRunOfPrefix(t, |d|);
    assert w[0] == d[0];
    assert IsValidWord(w);
    assert d[..|d|] == d;
    DigitRunOfPrefix(d, |d|);
    assert !IsValidWord(d);
    LetterFirstIsValid(q);
    assert forall k :: 0 <= k < |w| ==> !('A' <= w[k] <= 'Z') by {
      forall k | 0 <= k < |w| ensures !('A' <= w[k] <= 'Z') {
        if k < |d| { assert w[k] == d[k]; } else if k > |d| { assert w[k] == q[k - |d| - 1]; }
      }
    }
    LowerWithoutCapitals(w);
    TwoPieceWord(w, d, q, stem);
  }

  lemma NumberPrefixExample(stem: string -> string)
    ensures CleanWord("32-times.", stem) == [stem("times.")]
  {
    assert "32" + ['-'] + "times." == "32-times.";
    NumberThenWord("32", "times.", stem);
  }

  lemma CapitalisedWordExample(stem: string -> string)
    ensures CleanWord("My", stem) == [stem("my")]
  {
    PlainWordYieldsItsStem("My", stem);
    assert Lower("My") == "my";
  }

  lemma BareNumberExample(stem: string -> string)
    ensures CleanWord("32", stem) == []
  {
    assert DigitRun("32") == 2;
    assert MatchesDecimalNumber("32");
    InvalidWordYieldsNothing("32", stem);
  }

  /** The first two test tokens: `My` is lower-cased, `32` is dropped. */
  lemma CleanWordsExampleFront(stem: string -> string)
    ensures CleanWords(["My", "32"], stem) == [stem("my")]
  {
    FlatMapPair("My", "32", w => CleanWord(w, stem));
    CapitalisedWordExample(stem);
    BareNumberExample(stem);
  }

  /** The last two test tokens: `pigs-whistle` gives two words, `32-times.`
      only `times.`. */
  lemma CleanWordsExampleBack(stem: string -> string)
    ensures CleanWords(["pigs-whistle", "32-times."], stem) == [stem("pigs"), stem("whistle"), stem("times.")]
  {
    FlatMapPair("pigs-whistle", "32-times.", w => CleanWord(w, stem));
    HyphenPairExample(stem);
    NumberPrefixExample(stem);
  }

  /** The cleaning example of the tests, the token list written as its two
      halves: `32` is dropped, `pigs-whistle` gives two words and `32-times.`
      gives only `times.`, every word lower-cased and stemmed. */
  lemma CleanWordsExample(stem: string -> string)
    ensures CleanWords(["My", "32"] + ["pigs-whistle", "32-times."], stem)
            == [stem("my"), stem("pigs"), stem("whistle"), stem("times.")]
  {
    CleanWordsConcat(["My", "32"], ["pigs-whistle", "32-times."], stem);
    CleanWordsExampleFront(stem);
    CleanWordsExampleBack(stem);
  }

  // ===========================================================================
  // wordListToFreqDict

  /** `l.count(w)`. */
  function Count(l: seq<string>, w: string): nat
  {
    if l == [] then 0 else Count(l[..|l| - 1], w) + (if l[|l| - 1] == w then 1 else 0)
  }

  lemma {:induction false} CountIsMultiplicity(l: seq<string>, w: string)
    ensures Count(l, w) == multiset(l)[w]
  {
    if l != [] {
      CountIsMultiplicity(l[..|l| - 1], w);
      assert l == l[..|l| - 1] + [l[|l| - 1]];
    }
  }

  lemma CountsAreMultiplicities(l: seq<string>)
    ensures forall w :: Count(l, w) == multiset(l)[w]
  {
    forall w { CountIsMultiplicity(l, w); }
  }

  /** `wordListToFreqDict(wordlist, scale)`: every distinct word mapped to the
      fraction (its number of occurrences) / scale. A zero scale fails as
      `Fraction(n, 0)` does, but only once a word needs a weight. */
  function WordListToFreqDict(wordlist: seq<string>, scale: int): (r: Result<map<string, real>>)
    ensures r.Failure? <==> |wordlist| > 0 && scale == 0
    ensures r.Failure? ==> r.error == ZeroDivisionError
    ensures r.Success? ==> forall w :: w in r.value <==> w in wordlist
    ensures r.Success? ==> forall w :: w in r.value ==> r.value[w] == multiset(wordlist)[w] as real / scale as real
  {
    if |wordlist| > 0 && scale == 0 then Failure(ZeroDivisionError)
    else
      CountsAreMultiplicities(wordlist);
      Success(map w | w in wordlist :: Count(wordlist, w) as real / scale as real)
  }

  /** With a positive scale every weight is positive. */
  lemma FreqDictWeightsPositive(wordlist: seq<string>, scale: int)
    requires scale > 0
    ensures WordListToFreqDict(wordlist, scale).Success?
    ensures forall w :: w in WordListToFreqDict(wordlist, scale).value ==> WordListToFreqDict(wordlist, scale).value[w] > 0.0
  {
    var m := WordListToFreqDict(wordlist, scale).value;
    forall w | w in m ensures m[w] > 0.0 {
      assert w in multiset(wordlist);
      PositiveQuotient(multiset(wordlist)[w], scale);
    }
  }

  lemma PositiveQuotient(a: nat, b: nat)
    requires a > 0 && b > 0
    ensures a as real / b as real > 0.0
  {
  }

  /** The frequency map of a concatenation is the merge of the two frequency
      maps under the same scale. */
  lemma FreqDictOfConcat(a: seq<string>, b: seq<string>, scale: int)
    requires scale != 0
    ensures WordListToFreqDict(a + b, scale).Success?
    ensures WordListToFreqDict(a + b, scale).value
            == Merge(WordListToFreqDict(a, scale).value, WordListToFreqDict(b, scale).value)
  {
    var d := WordListToFreqDict(a + b, scale).value;
    var m := Merge(WordListToFreqDict(a, scale).value, WordListToFreqDict(b, scale).value);
    forall w | w in d ensures w in m && d[w] == m[w] {
      FreqDictOfConcatAt(a, b, scale, w);
    }
    assert d.Keys == m.Keys;
  }

  lemma FreqDictOfConcatAt(a: seq<string>, b: seq<string>, scale: int, w: string)
    requires scale != 0 && w in a + b
    ensures WordListToFreqDict(a + b, scale).value[w]
            == Get(WordListToFreqDict(b, scale).value, w) + Get(WordListToFreqDict(a, scale).value, w)
  {
    var da, db := WordListToFreqDict(a, scale).value, WordListToFreqDict(b, scale).value;
    assert multiset(a + b) == multiset(a) + multiset(b);
    var ca, cb := multiset(a)[w] as real, multiset(b)[w] as real;
    assert Get(da, w) == ca / scale as real;
    assert Get(db, w) == cb / scale as real;
    DivideSum(ca, cb, scale as real);
  }

  lemma DivideSum(x: real, y: real, z: real)
    requires z != 0.0
    ensures (x + y) / z == y / z + x / z
  {
  }

  // ===========================================================================
  // appendWordFreqDictToExistingDict

  /** The weight of `k` in `m`, 0 when `k` is missing (`m.get(k, Fraction(0, 1))`). */
  function Get(m: map<string, real>, k: string): real
  {
    if k in m then m[k] else 0.0
  }

  /** The pointwise sum of two frequency maps, a missing word weighing 0. */
  function Merge(existing: map<string, real>, toAppend: map<string, real>): map<string, real>
  {
    map k | k in existing.Keys + toAppend.Keys :: Get(toAppend, k) + Get(existing, k)
  }

  /** A dictionary object, updated in place. */
  class FreqDict {
    var entries: map<string, real>

    constructor (entries: map<string, real>)
      ensures this.entries == entries
    {
      this.entries := entries;
    }
  }

  /** `appendWordFreqDictToExistingDict(existing, to_append)`: adds every
      weight of `to_append` into `existing`, in place, and returns `existing`
      itself. */
  method AppendWordFreqDictToExistingDict(existing: FreqDict, toAppend: map<string, real>) returns (r: FreqDict)
    modifies existing
    ensures r == existing
    ensures existing.entries.Keys == old(existing.entries).Keys + toAppend.Keys
    ensures forall k :: k in toAppend ==> existing.entries[k] == toAppend[k] + Get(old(existing.entries), k)
    ensures forall k :: k in old(existing.entries) && k !in toAppend ==> existing.entries[k] == old(existing.entries[k])
    ensures existing.entries == Merge(old(existing.entries), toAppend)
  {
    ghost var start := existing.entries;
    var remaining := toAppend.Keys;
    while remaining != {}
      invariant remaining <= toAppend.Keys
      invariant existing.entries.Keys == start.Keys + (toAppend.Keys - remaining)
      invariant forall k :: k in toAppend.Keys - remaining ==> existing.entries[k] == toAppend[k] + Get(start, k)
      invariant forall k :: k in existing.entries && k !in toAppend.Keys - remaining ==> existing.entries[k] == start[k]
      decreases remaining
    {
      var key :| key in remaining;
      existing.entries := existing.entries[key := toAppend[key] + Get(existing.entries, key)];
      remaining := remaining - {key};
    }
    r := existing;
    assert existing.entries == Merge(start, toAppend);
  }

  /** Merging an empty map changes nothing. */
  lemma MergeEmptyRight(d: map<string, real>)
    ensures Merge(d, map[]) == d
  {
    assert Merge(d, map[]).Keys == d.Keys;
  }

  /** Merging into an empty map gives the appended map. */
  lemma MergeEmptyLeft(d: map<string, real>)
    ensures Merge(map[], d) == d
  {
    assert Merge(map[], d).Keys == d.Keys;
  }

  lemma MergeCommutative(a: map<string, real>, b: map<string, real>)
    ensures Merge(a, b) == Merge(b, a)
  {
    assert Merge(a, b).Keys == Merge(b, a).Keys;
  }

  lemma MergeAssociative(a: map<string, real>, b: map<string, real>, c: map<string, real>)
    ensures Merge(Merge(a, b), c) == Merge(a, Merge(b, c))
  {
    var l, r := Merge(Merge(a, b), c), Merge(a, Merge(b, c));
    assert l.Keys == r.Keys;
    forall k | k in l ensures l[k] == r[k] {
      assert Get(Merge(a, b), k) == Get(b, k) + Get(a, k);
      assert Get(Merge(b, c), k) == Get(c, k) + Get(b, k);
    }
  }

  // ===========================================================================
  // sortFreqDict

  /** A `(weight, word)` pair of the listing `sortFreqDict` builds. */
  type Entry = (real, string)

  /** Python's order on such tuples: by weight, then by word. */
  predicate EntryLess(a: Entry, b: Entry)
  {
    a.0 < b.0 || (a.0 == b.0 && LexLess(a.1, b.1))
  }

  predicate EntryLe(a: Entry, b: Entry) { a == b || EntryLess(a, b) }

  lemma EntryLessTransitive(a: Entry, b: Entry, c: Entry)
    requires EntryLess(a, b) && EntryLess(b, c)
    ensures EntryLess(a, c)
  {
    if a.0 == b.0 && b.0 == c.0 { LexLessTransitive(a.1, b.1, c.1); }
  }

  lemma EntryLessTotal(a: Entry, b: Entry)
    ensures a == b || EntryLess(a, b) || EntryLess(b, a)
  {
    LexLessTotal(a.1, b.1);
  }

  /** Strictly descending in `(weight, word)`: heavier words first, and words
      of equal weight in descending lexicographic order. */
  predicate StrictlyDescending(s: seq<Entry>)
  {
    forall i, j :: 0 <= i < j < |s| ==> EntryLess(s[j], s[i])
  }

  predicate Distinct(s: seq<Entry>)
  {
    forall i, j :: 0 <= i < j < |s| ==> s[i] != s[j]
  }

  /** Exchanges `a[j - 1]` and `a[j]`. */
  method SwapWithPrevious(a: array<Entry>, j: int)
    requires 0 < j < a.Length
    modifies a
    ensures a[j - 1] == old(a[j]) && a[j] == old(a[j - 1])
    ensures forall k :: 0 <= k < a.Length && k != j - 1 && k != j ==> a[k] == old(a[k])
    ensures multiset(a[..]) == multiset(old(a[..]))
  {
    a[j - 1], a[j] := a[j], a[j - 1];
  }

  /** One pass of insertion sort: moves `a[i]` left past every larger entry
      of the ascending prefix `a[..i]`. */
  method InsertIntoPrefix(a: array<Entry>, i: int)
    requires 0 < i < a.Length
    requires forall k :: 0 < k < i ==> EntryLe(a[k - 1], a[k])
    modifies a
    ensures forall k :: 0 < k <= i ==> EntryLe(a[k - 1], a[k])
    ensures multiset(a[..]) == multiset(old(a[..]))
  {
    var j := i;
    while 0 < j && EntryLess(a[j], a[j - 1])
      invariant 0 <= j <= i
      invariant forall k :: 0 < k <= i && k != j ==> EntryLe(a[k - 1], a[k])
      invariant 0 < j < i ==> EntryLe(a[j - 1], a[j + 1])
      invariant j < i ==> EntryLess(a[j], a[j + 1])
      invariant multiset(a[..]) == multiset(old(a[..]))
    {
      SwapWithPrevious(a, j);
      j := j - 1;
    }
    if 0 < j {
      EntryLessTotal(a[j - 1], a[j]);
    }
  }

  /** `aux.sort()`: sorts the array ascending, in place (insertion sort). */
  method SortEntries(a: array<Entry>)
    modifies a
    ensures forall k :: 0 < k < a.Length ==> EntryLe(a[k - 1], a[k])
    ensures multiset(a[..]) == multiset(old(a[..]))
  {
    var i := 1;
    while i < a.Length
      invariant forall k :: 0 < k < i && k < a.Length ==> EntryLe(a[k - 1], a[k])
      invariant multiset(a[..]) == multiset(old(a[..]))
    {
      InsertIntoPrefix(a, i);
      i := i + 1;
    }
  }

  /** `aux.reverse()`, in place. */
  method ReverseEntries(a: array<Entry>)
    modifies a
    ensures forall k :: 0 <= k < a.Length ==> a[k] == old(a[a.Length - 1 - k])
  {
    var n := a.Length;
    var i := 0;
    while i < n / 2
      invariant 0 <= i <= n / 2
      invariant forall k :: 0 <= k < i ==> a[k] == old(a[n - 1 - k]) && a[n - 1 - k] == old(a[k])
      invariant forall k :: i <= k < n - i ==> a[k] == old(a[k])
    {
      a[i], a[n - 1 - i] := a[n - 1 - i], a[i];
      i := i + 1;
    }
  }

  lemma {:induction false} DistinctAtMostOnce(t: seq<Entry>, x: Entry)
    requires Distinct(t)
    ensures multiset(t)[x] <= 1
  {
    if t != [] {
      var init := t[..|t| - 1];
      DistinctAtMostOnce(init, x);
      assert t == init + [t[|t| - 1]];
      if t[|t| - 1] == x {
        assert x !in init;
      }
    }
  }

  /** A permutation of a sequence without duplicates has no duplicates. */
  lemma PermutationKeepsDistinct(s: seq<Entry>, t: seq<Entry>)
    requires multiset(s) == multiset(t) && Distinct(t)
    ensures Distinct(s)
  {
    forall i, j | 0 <= i < j < |s| ensures s[i] != s[j] {
      if s[i] == s[j] {
        assert s == s[..j] + s[j..];
        assert s[i] in s[..j] && s[j] in s[j..];
        assert multiset(s)[s[i]] == multiset(s[..j])[s[i]] + multiset(s[j..])[s[i]];
        DistinctAtMostOnce(t, s[i]);
      }
    }
  }

  /** Ascending neighbours without duplicates give a strictly ascending sequence. */
  lemma {:induction false} AscendingDistinctIsStrict(s: seq<Entry>, i: int, j: int)
    requires forall k :: 0 < k < |s| ==> EntryLe(s[k - 1], s[k])
    requires Distinct(s)
    requires 0 <= i < j < |s|
    ensures EntryLess(s[i], s[j])
    decreases j - i
  {
    assert EntryLe(s[j - 1], s[j]) && s[j - 1] != s[j];
    if i < j - 1 {
      AscendingDistinctIsStrict(s, i, j - 1);
      EntryLessTransitive(s[i], s[j - 1], s[j]);
    }
  }

  /** Reversing an ascending sequence without duplicates gives a strictly
      descending one with the same members. */
  lemma ReverseOfAscending(asc: seq<Entry>, desc: seq<Entry>)
    requires |desc| == |asc|
    requires forall k :: 0 <= k < |asc| ==> desc[k] == asc[|asc| - 1 - k]
    requires forall k :: 0 < k < |asc| ==> EntryLe(asc[k - 1], asc[k])
    requires Distinct(asc)
    ensures StrictlyDescending(desc)
    ensures forall e :: e in desc <==> e in asc
  {
    var n := |asc|;
    forall p, q | 0 <= p < q < n ensures EntryLess(desc[q], desc[p]) {
      AscendingDistinctIsStrict(asc, n - 1 - q, n - 1 - p);
    }
    forall e ensures e in desc <==> e in asc {
      if e in desc {
        var p :| 0 <= p < n && desc[p] == e;
        assert asc[n - 1 - p] == e;
      }
      if e in asc {
        var p :| 0 <= p < n && asc[p] == e;
        assert desc[n - 1 - p] == e;
      }
    }
  }

  lemma SameMultisetSameMembers(s: seq<Entry>, t: seq<Entry>)
    requires multiset(s) == multiset(t)
    ensures forall e :: e in s <==> e in t
  {
    forall e ensures e in s <==> e in t {
      assert e in s <==> e in multiset(s);
      assert e in t <==> e in multiset(t);
    }
  }

  /** The list comprehension of `sortFreqDict`: the `(weight, word)` pair of
      every key, one per key, in a fresh array. */
  method ListEntries(freqdict: map<string, real>) returns (a: array<Entry>)
    ensures fresh(a) && a.Length == |freqdict|
    ensures Distinct(a[..])
    ensures forall e :: e in a[..] <==> e.1 in freqdict && freqdict[e.1] == e.0
  {
    var listed: seq<Entry> := [];
    var rest := freqdict.Keys;
    while rest != {}
      invariant rest <= freqdict.Keys
      invariant |listed| + |rest| == |freqdict|
      invariant forall e :: e in listed <==> e.1 in freqdict.Keys - rest && e.0 == freqdict[e.1]
      invariant forall p, q :: 0 <= p < q < |listed| ==> listed[p].1 != listed[q].1
      decreases rest
    {
      var k :| k in rest;
      listed := listed + [(freqdict[k], k)];
      rest := rest - {k};
    }
    a := new Entry[|listed|](p requires 0 <= p < |listed| => listed[p]);
    assert a[..] == listed;
  }

  /** `sortFreqDict`: the `(weight, word)` pairs of the map, one per word,
      strictly descending. */
  method SortFreqDict(freqdict: map<string, real>) returns (aux: seq<Entry>)
    ensures |aux| == |freqdict|
    ensures forall e :: e in aux <==> e.1 in freqdict && freqdict[e.1] == e.0
    ensures StrictlyDescending(aux)
  {
    var a := ListEntries(freqdict);
    ghost var listed := a[..];
    SortEntries(a);
    ghost var ascending := a[..];
    ReverseEntries(a);
    aux := a[..];
    DescendingListing(freqdict, listed, ascending, aux);
  }

  /** Sorting a listing of the map's pairs without repeats and reversing it
      gives a strictly descending listing of the same pairs. */
  lemma DescendingListing(m: map<string, real>, listed: seq<Entry>, ascending: seq<Entry>, desc: seq<Entry>)
    requires Distinct(listed)
    requires forall e :: e in listed <==> e.1 in m && m[e.1] == e.0
    requires multiset(ascending) == multiset(listed)
    requires forall k :: 0 < k < |ascending| ==> EntryLe(ascending[k - 1], ascending[k])
    requires |desc| == |ascending|
    requires forall k :: 0 <= k < |ascending| ==> desc[k] == ascending[|ascending| - 1 - k]
    ensures forall e :: e in desc <==> e.1 in m && m[e.1] == e.0
    ensures StrictlyDescending(desc)
  {
    PermutationKeepsDistinct(ascending, listed);
    SameMultisetSameMembers(ascending, listed);
    ReverseOfAscending(ascending, desc);
  }

  // ===========================================================================
  // getFilteredTokens and makeWordFrequencyDictionary

  /** `[w for w in ws if w not in stopWords]`. */
  function RemoveStopWords(ws: seq<string>, stopWords: set<string>): (r: seq<string>)
    ensures forall w :: multiset(r)[w] == if w in stopWords then 0 else multiset(ws)[w]
  {
    if ws == [] then []
    else
      assert ws == [ws[0]] + ws[1..];
      (if ws[0] in stopWords then [] else [ws[0]]) + RemoveStopWords(ws[1..], stopWords)
  }

  lemma {:induction false} RemoveStopWordsSorted(ws: seq<string>, stopWords: set<string>)
    requires Sorted(ws)
    ensures Sorted(RemoveStopWords(ws, stopWords))
  {
    if ws != [] {
      var tail := RemoveStopWords(ws[1..], stopWords);
      RemoveStopWordsSorted(ws[1..], stopWords);
      if ws[0] !in stopWords {
        forall j | 0 <= j < |tail| ensures LexLe(ws[0], tail[j]) {
          FilteredFromTail(ws, stopWords, tail[j]);
        }
      }
    }
  }

  /** A word kept from the tail of a sorted list is not below its head. */
  lemma FilteredFromTail(ws: seq<string>, stopWords: set<string>, x: string)
    requires Sorted(ws) && ws != [] && x in RemoveStopWords(ws[1..], stopWords)
    ensures LexLe(ws[0], x)
  {
    assert x in multiset(RemoveStopWords(ws[1..], stopWords));
    assert x in multiset(ws[1..]);
    var k :| 0 <= k < |ws[1..]| && ws[1..][k] == x;
    assert ws[k + 1] == x;
  }

  /** `getFilteredTokens`, from the raw tokens on: the cleaned tokens sorted
      ascending with the stop words removed, and the number of raw tokens. */
  function GetFilteredTokens(rawTokens: seq<string>, stem: string -> string, stopWords: set<string>)
    : (r: (seq<string>, nat))
    ensures r.1 == |rawTokens|
    ensures Sorted(r.0)
    ensures forall w :: w in r.0 ==> w !in stopWords
    ensures forall w :: multiset(r.0)[w] == if w in stopWords then 0 else multiset(CleanWords(rawTokens, stem))[w]
  {
    var cleanedText := CleanWords(rawTokens, stem);
    var sortedText := SortStrings(cleanedText);
    SortStringsSorted(cleanedText);
    RemoveStopWordsSorted(sortedText, stopWords);
    (RemoveStopWords(sortedText, stopWords), |rawTokens|)
  }

  /** No raw tokens, no filtered tokens: the division by the token count in
      `makeWordFrequencyDictionary` never has a zero denominator. */
  lemma NoTokensNoWords(rawTokens: seq<string>, stem: string -> string, stopWords: set<string>)
    requires rawTokens == []
    ensures GetFilteredTokens(rawTokens, stem, stopWords).0 == []
  {
    var r := GetFilteredTokens(rawTokens, stem, stopWords).0;
    assert multiset(r) == multiset{};
    assert |r| == |multiset(r)|;
  }

  /** `makeWordFrequencyDictionary`, from the raw tokens on: every distinct
      filtered token with weight (occurrences / number of raw tokens), listed
      strictly descending by `(weight, word)`. It never fails. */
  method MakeWordFrequencyDictionary(rawTokens: seq<string>, stem: string -> string, stopWords: set<string>)
    returns (aux: seq<Entry>)
    ensures var (tokens, n) := GetFilteredTokens(rawTokens, stem, stopWords);
            forall e :: e in aux <==> e.1 in tokens && n > 0 && e.0 == multiset(tokens)[e.1] as real / n as real
    ensures StrictlyDescending(aux)
    ensures forall e :: e in aux ==> e.0 > 0.0
  {
    var filtered := GetFilteredTokens(rawTokens, stem, stopWords);
    var tokenizedText, inputWordCount := filtered.0, filtered.1;
    if inputWordCount == 0 {
      NoTokensNoWords(rawTokens, stem, stopWords);
    }
    var dictionary := WordListToFreqDict(tokenizedText, inputWordCount);
    if inputWordCount > 0 {
      FreqDictWeightsPositive(tokenizedText, inputWordCount);
    }
    aux := SortFreqDict(dictionary.value);
    assert forall e :: e in aux <==> e.1 in dictionary.value && dictionary.value[e.1] == e.0;
  }
}
