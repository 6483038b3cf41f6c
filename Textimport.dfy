/**
 * Reading text and learning data (textimport.py): the ASCII filter applied to
 * downloaded text and the parser of the learning-data file, whose lines have
 * the form `category | url`.
 *
 * The file system is not modelled: a file is `None` when it does not exist
 * and otherwise the sequence of its lines, each with its line terminator,
 * the last possibly without.
 */
module Textimport {
  import opened Wrappers
  import opened Strings

  // ===========================================================================
  // remove_non_ascii_chars

  predicate IsAscii(c: char) { c as int < 128 }

  predicate AllAscii(s: string) { forall k :: 0 <= k < |s| ==> IsAscii(s[k]) }

  /** `string.encode("ascii", "ignore").decode("ascii")`: every character
      outside ASCII is dropped, the others are kept in order. */
  function RemoveNonAsciiChars(s: string): (r: string)
    ensures |r| <= |s|
  {
    if s == [] then []
    else (if IsAscii(s[0]) then [s[0]] else []) + RemoveNonAsciiChars(s[1..])
  }

  /** The filtered string is ASCII, and it keeps every ASCII character as
      often as the input has it. */
  lemma {:induction false} RemoveNonAsciiCounts(s: string)
    ensures AllAscii(RemoveNonAsciiChars(s))
    ensures forall c :: multiset(RemoveNonAsciiChars(s))[c] == if IsAscii(c) then multiset(s)[c] else 0
  {
    if s != [] {
      RemoveNonAsciiCounts(s[1..]);
      assert s == [s[0]] + s[1..];
      var tail := RemoveNonAsciiChars(s[1..]);
      var r := RemoveNonAsciiChars(s);
      if IsAscii(s[0]) {
        assert r == [s[0]] + tail;
        forall k | 0 <= k < |r| ensures IsAscii(r[k]) {
          if k > 0 { assert r[k] == tail[k - 1]; }
        }
      } else {
        assert r == tail;
      }
    }
  }

  /** The filter keeps the order of the characters: filtering a concatenation
      is concatenating the filtered parts. */
  lemma {:induction false} RemoveNonAsciiConcat(a: string, b: string)
    ensures RemoveNonAsciiChars(a + b) == RemoveNonAsciiChars(a) + RemoveNonAsciiChars(b)
  {
    if a == [] {
      assert a + b == b;
    } else {
      var head := if IsAscii(a[0]) then [a[0]] else [];
      assert RemoveNonAsciiChars(a + b) == head + RemoveNonAsciiChars(a[1..] + b) by {
        assert (a + b)[0] == a[0];
        assert (a + b)[1..] == a[1..] + b;
      }
      RemoveNonAsciiConcat(a[1..], b);
      var x, y := RemoveNonAsciiChars(a[1..]), RemoveNonAsciiChars(b);
      assert head + (x + y) == (head + x) + y;
    }
  }

  /** On ASCII text the filter is the identity. */
  lemma {:induction false} RemoveNonAsciiIdentity(s: string)
    requires AllAscii(s)
    ensures RemoveNonAsciiChars(s) == s
  {
    if s != [] {
      assert AllAscii(s[1..]) by {
        forall k | 0 <= k < |s[1..]| ensures IsAscii(s[1..][k]) { assert s[1..][k] == s[k + 1]; }
      }
      RemoveNonAsciiIdentity(s[1..]);
      assert [s[0]] + s[1..] == s;
    }
  }

  /** Filtering twice is filtering once. */
  lemma RemoveNonAsciiIdempotent(s: string)
    ensures RemoveNonAsciiChars(RemoveNonAsciiChars(s)) == RemoveNonAsciiChars(s)
  {
    RemoveNonAsciiCounts(s);
    RemoveNonAsciiIdentity(RemoveNonAsciiChars(s));
  }

  // ===========================================================================
  // load_learning_data_from_file

  /** The learning data: the URLs of every category, in the order of the file. */
  type LearningData = map<string, seq<string>>

  /** What one line contributes: nothing (`None`) when it has no `|` or its
      stripped URL is empty, a stripped `(category, url)` pair when it has
      exactly one `|`, and the `ValueError` of the unpacking when it has more. */
  function ParseLine(line: string): Result<Option<(string, string)>>
  {
    if '|' !in line then Success(None)
    else
      var parts := Split(line, '|');
      if |parts| != 2 then Failure(ValueError)
      else
        var key, url := Strip(parts[0]), Strip(parts[1]);
        if url == [] then Success(None) else Success(Some((key, url)))
  }

  /** Appends `url` to the list of `key`, creating the list when it is missing. */
  function AddUrl(m: LearningData, key: string, url: string): LearningData
  {
    if key in m then m[key := m[key] + [url]] else m[key := [url]]
  }

  /** The dictionary after reading `lines`, or the error of the first line
      that does not unpack. */
  function LoadLines(lines: seq<string>): Result<LearningData>
  {
    if lines == [] then Success(map[])
    else
      match LoadLines(lines[..|lines| - 1])
      case Failure(e) => Failure(e)
      case Success(m) =>
        match ParseLine(lines[|lines| - 1])
        case Failure(e) => Failure(e)
        case Success(None) => Success(m)
        case Success(Some((key, url))) => Success(AddUrl(m, key, url))
  }

  /** `load_learning_data_from_file`: a missing file gives the empty
      dictionary. */
  function LoadLearningData(file: Option<seq<string>>): Result<LearningData>
  {
    match file
    case None => Success(map[])
    case Some(lines) => LoadLines(lines)
  }

  /** The loop of `load_learning_data_from_file`, which fills the dictionary
      line by line and appends to its lists. */
  method LoadLearningDataFromFile(file: Option<seq<string>>) returns (r: Result<LearningData>)
    ensures r == LoadLearningData(file)
    ensures file.None? ==> r == Success(map[])
  {
    var urlsPerSubject: LearningData := map[];
    if file.None? {
      return Success(urlsPerSubject);
    }
    var lines := file.value;
    var i := 0;
    while i < |lines|
      invariant 0 <= i <= |lines|
      invariant LoadLines(lines[..i]) == Success(urlsPerSubject)
    {
      var line := lines[i];
      assert lines[..i + 1][..i] == lines[..i];
      if '|' in line {
        var parts := Split(line, '|');
        if |parts| != 2 {
          FailureSticks(lines, i + 1);
          return Failure(ValueError);
        }
        var key, url := Strip(parts[0]), Strip(parts[1]);
        if url == [] {
          i := i + 1;
          continue;
        }
        if key in urlsPerSubject {
          urlsPerSubject := urlsPerSubject[key := urlsPerSubject[key] + [url]];
        } else {
          urlsPerSubject := urlsPerSubject[key := [url]];
        }
      }
      i := i + 1;
    }
    assert lines[..i] == lines;
    return Success(urlsPerSubject);
  }

  /** Once a line fails, reading more lines cannot undo the error. */
  lemma {:induction false} FailureSticks(lines: seq<string>, n: nat)
    requires n <= |lines| && LoadLines(lines[..n]).Failure?
    ensures LoadLines(lines) == LoadLines(lines[..n])
    decreases |lines| - n
  {
    if n < |lines| {
      assert lines[..n + 1][..n] == lines[..n];
      FailureSticks(lines, n + 1);
    } else {
      assert lines[..n] == lines;
    }
  }

  // ---------------------------------------------------------------------------
  // What a single line does

  /** A line `k|u` has its two sides stripped. */
  lemma LineWithOnePipe(k: string, u: string)
    requires '|' !in k && '|' !in u
    ensures ParseLine(k + "|" + u) == if Strip(u) == [] then Success(None) else Success(Some((Strip(k), Strip(u))))
  {
    SplitAfterPiece(k, u, '|');
    SplitWithoutSep(u, '|');
    assert k + "|" + u == k + ['|'] + u;
    assert (k + ['|'] + u)[|k|] == '|';
  }

  /** A line whose URL is only whitespace contributes nothing: no category is
      created for it. */
  lemma BlankUrlIsSkipped(k: string, u: string)
    requires '|' !in k && AllSpace(u)
    ensures ParseLine(k + "|" + u) == Success(None)
  {
    assert '|' !in u by {
      forall j | 0 <= j < |u| ensures u[j] != '|' { assert IsSpace(u[j]); }
    }
    LineWithOnePipe(k, u);
    StripEmpty(u);
  }

  /** A line with two or more `|` does not unpack into a category and a URL. */
  lemma TwoPipesFail(line: string)
    requires multiset(line)['|'] >= 2
    ensures ParseLine(line) == Failure(ValueError)
  {
    SplitCount(line, '|');
    assert '|' in multiset(line);
  }

  /** A line with exactly one `|` never fails. */
  lemma OnePipeNeverFails(line: string)
    requires multiset(line)['|'] == 1
    ensures ParseLine(line).Success?
  {
    SplitCount(line, '|');
    assert '|' in multiset(line);
  }

  // ---------------------------------------------------------------------------
  // The whole file

  /** The URL one line gives to `key`, if any. */
  function UrlOf(line: string, key: string): seq<string>
  {
    match ParseLine(line)
    case Success(Some((k, u))) => if k == key then [u] else []
    case _ => []
  }

  /** The URLs the lines give to `key`, in line order, as an independent
      description of the dictionary. */
  function UrlsFor(lines: seq<string>, key: string): seq<string>
  {
    FlatMap(lines, line => UrlOf(line, key))
  }

  lemma UrlsForConcat(a: seq<string>, b: seq<string>, key: string)
    ensures UrlsFor(a + b, key) == UrlsFor(a, key) + UrlsFor(b, key)
  {
    FlatMapConcat(a, b, line => UrlOf(line, key));
  }

  /** The file is read without error exactly when every line unpacks. */
  lemma {:induction false} LoadLinesFails(lines: seq<string>)
    ensures LoadLines(lines).Failure? <==> exists i :: 0 <= i < |lines| && ParseLine(lines[i]).Failure?
  {
    if lines != [] {
      var init := lines[..|lines| - 1];
      LoadLinesFails(init);
      if exists i :: 0 <= i < |init| && ParseLine(init[i]).Failure? {
        var i :| 0 <= i < |init| && ParseLine(init[i]).Failure?;
        assert lines[i] == init[i];
      }
      if exists i :: 0 <= i < |lines| && ParseLine(lines[i]).Failure? {
        var i :| 0 <= i < |lines| && ParseLine(lines[i]).Failure?;
        if i < |init| { assert init[i] == lines[i]; }
      }
    }
  }

  /** Every error is the `ValueError` of the unpacking. */
  lemma {:induction false} LoadLinesError(lines: seq<string>)
    ensures LoadLines(lines).Failure? ==> LoadLines(lines).error == ValueError
  {
    if lines != [] {
      LoadLinesError(lines[..|lines| - 1]);
    }
  }

  /** The contents of the dictionary: a category is present exactly when some
      line gives it a URL, and its list holds those URLs in line order,
      duplicates included. */
  lemma {:induction false} LoadLinesContents(lines: seq<string>)
    requires LoadLines(lines).Success?
    ensures forall key :: key in LoadLines(lines).value <==> UrlsFor(lines, key) != []
    ensures forall key :: key in LoadLines(lines).value ==> LoadLines(lines).value[key] == UrlsFor(lines, key)
  {
    if lines != [] {
      var init := lines[..|lines| - 1];
      LoadLinesContents(init);
    }
  }

  /** Every category and every URL of `m` is stripped, and no URL is empty. */
  predicate Stripped(m: LearningData)
  {
    forall key :: key in m ==> Strip(key) == key && forall u :: u in m[key] ==> u != [] && Strip(u) == u
  }

  lemma AddUrlKeepsStripped(m: LearningData, key: string, url: string)
    requires Stripped(m) && Strip(key) == key && url != [] && Strip(url) == url
    ensures Stripped(AddUrl(m, key, url))
  {
    var m' := AddUrl(m, key, url);
    forall k, u | k in m' && u in m'[k] ensures u != [] && Strip(u) == u {
      if k == key && key in m {
        assert m'[k] == m[k] + [url];
      }
    }
  }

  /** Every category and every URL of the dictionary is stripped, and no URL
      is empty. */
  lemma {:induction false} LoadLinesStripped(lines: seq<string>)
    requires LoadLines(lines).Success?
    ensures Stripped(LoadLines(lines).value)
  {
    if lines != [] {
      var init := lines[..|lines| - 1];
      LoadLinesStripped(init);
      match ParseLine(lines[|lines| - 1])
      case Success(Some((k, u))) =>
        var parts := Split(lines[|lines| - 1], '|');
        StripIdempotent(parts[0]);
        StripIdempotent(parts[1]);
        AddUrlKeepsStripped(LoadLines(init).value, k, u);
      case Success(None) =>
      case Failure(_) =>
        assert false;
    }
  }

  /** A line without `|` is skipped wherever it stands. */
  lemma LineWithoutPipeSkipped(a: seq<string>, line: string, b: seq<string>)
    requires '|' !in line
    ensures LoadLines(a + [line] + b) == LoadLines(a + b)
  {
    SkippedLineIrrelevant(a, line, b);
  }

  /** A line whose URL is blank is skipped wherever it stands: it creates no
      category. */
  lemma BlankUrlLineSkipped(a: seq<string>, k: string, u: string, b: seq<string>)
    requires '|' !in k && AllSpace(u)
    ensures LoadLines(a + [k + "|" + u] + b) == LoadLines(a + b)
  {
    BlankUrlIsSkipped(k, u);
    SkippedLineIrrelevant(a, k + "|" + u, b);
  }

  /** A line that fails makes the whole file fail, wherever it stands. */
  lemma FailingLineFails(a: seq<string>, line: string, b: seq<string>)
    requires ParseLine(line).Failure?
    ensures LoadLines(a + [line] + b) == Failure(ValueError)
  {
    var lines := a + [line] + b;
    LoadLinesFails(lines);
    assert lines[|a|] == line;
    LoadLinesError(lines);
  }

  /** A line that contributes nothing can be taken out anywhere. */
  lemma {:induction false} SkippedLineIrrelevant(a: seq<string>, line: string, b: seq<string>)
    requires ParseLine(line) == Success(None)
    ensures LoadLines(a + [line] + b) == LoadLines(a + b)
  {
    if b == [] {
      assert (a + [line] + b)[..|a + [line] + b| - 1] == a;
      assert a + b == a;
    } else {
      SkippedLineIrrelevant(a, line, b[..|b| - 1]);
      assert (a + [line] + b)[..|a + [line] + b| - 1] == a + [line] + b[..|b| - 1];
      assert (a + b)[..|a + b| - 1] == a + b[..|b| - 1];
    }
  }

  /** Three lines that each give a URL fill the dictionary in line order. */
  lemma LoadThreeLines(l1: string, l2: string, l3: string, k1: string, u1: string,
                       k2: string, u2: string, k3: string, u3: string)
    requires ParseLine(l1) == Success(Some((k1, u1)))
    requires ParseLine(l2) == Success(Some((k2, u2)))
    requires ParseLine(l3) == Success(Some((k3, u3)))
    ensures LoadLines([l1, l2, l3]) == Success(AddUrl(AddUrl(AddUrl(map[], k1, u1), k2, u2), k3, u3))
  {
    var m1 := AddUrl(map[], k1, u1);
    var m2 := AddUrl(m1, k2, u2);
    assert [l1][..0] == [];
    assert LoadLines([l1]) == Success(m1);
    assert [l1, l2][..1] == [l1];
    assert LoadLines([l1, l2]) == Success(m2);
    assert [l1, l2, l3][..2] == [l1, l2];
  }

  /** Stripping a line that ends in a line feed. */
  lemma StripLine(s: string)
    requires |s| > 0 && !IsSpace(s[0]) && !IsSpace(s[|s| - 1])
    ensures Strip(s + "\n") == s
  {
    var t := s + "\n";
    assert StripLeft(t) == t;
    assert t[..|t| - 1] == s;
    assert StripRight(s) == s;
  }

  /** A non-empty field without `|` that neither starts nor ends with
      whitespace. */
  predicate Unpadded(s: string)
  {
    |s| > 0 && !IsSpace(s[0]) && !IsSpace(s[|s| - 1]) && '|' !in s
  }

  lemma StripLeftOfUnpadded(s: string)
    requires |s| > 0 && !IsSpace(s[0])
    ensures StripLeft(s) == s
  {
  }

  lemma StripRightOfUnpadded(s: string)
    requires |s| > 0 && !IsSpace(s[|s| - 1])
    ensures StripRight(s) == s
  {
  }

  /** The line `k|u` followed by a line feed gives `u` to `k`. */
  lemma ParseFileLine(k: string, u: string)
    requires Unpadded(k) && Unpadded(u)
    ensures ParseLine(k + "|" + u + "\n") == Success(Some((k, u)))
  {
    assert '|' !in u + "\n";
    assert k + "|" + u + "\n" == k + "|" + (u + "\n");
    LineWithOnePipe(k, u + "\n");
    StripLine(u);
    StripLeftOfUnpadded(k);
    StripRightOfUnpadded(k);
  }

  /** Three lines `k1|u1`, `k2|u2`, `k3|u3` where the first and the last
      name the same category once stripped: that category gets its two URLs
      in line order. Whitespace around the fields, including the line break,
      is stripped away. */
  lemma RepeatedCategoryExample(k1: string, u1: string, k2: string, u2: string, k3: string, u3: string)
    requires '|' !in k1 && '|' !in k2 && '|' !in k3
    requires '|' !in u1 && '|' !in u2 && '|' !in u3
    requires Strip(u1) != [] && Strip(u2) != [] && Strip(u3) != []
    requires Strip(k1) == Strip(k3) && Strip(k1) != Strip(k2)
    ensures LoadLines([k1 + "|" + u1, k2 + "|" + u2, k3 + "|" + u3])
            == Success(map[Strip(k1) := [Strip(u1), Strip(u3)], Strip(k2) := [Strip(u2)]])
  {
    LineWithOnePipe(k1, u1);
    LineWithOnePipe(k2, u2);
    LineWithOnePipe(k3, u3);
    var a, b := Strip(k1), Strip(k2);
    var v1, v2, v3 := Strip(u1), Strip(u2), Strip(u3);
    LoadThreeLines(k1 + "|" + u1, k2 + "|" + u2, k3 + "|" + u3, a, v1, b, v2, a, v3);
    var m1 := AddUrl(map[], a, v1);
    var m2 := AddUrl(m1, b, v2);
    assert m1 == map[a := [v1]];
    assert b !in m1;
    assert m2 == map[a := [v1], b := [v2]];
    assert m2[a] + [v3] == [v1, v3];
    var m3 := AddUrl(m2, a, v3);
    assert m3 == m2[a := [v1, v3]];
    assert m3.Keys == {a, b};
    assert m3 == map[a := [v1, v3], b := [v2]];
  }

  /** The same URL twice under one category is kept twice. */
  lemma DuplicatesKept(k: string, u: string)
    requires Unpadded(k) && Unpadded(u)
    ensures LoadLines([k + "|" + u + "\n", k + "|" + u + "\n"]) == Success(map[k := [u, u]])
  {
    var line := k + "|" + u + "\n";
    ParseFileLine(k, u);
    assert [line, line][..1] == [line];
    assert [line][..0] == [];
    assert LoadLines([line]) == Success(map[k := [u]]);
    assert LoadLines([line, line]) == Success(AddUrl(map[k := [u]], k, u));
    assert [u] + [u] == [u, u];
    assert AddUrl(map[k := [u]], k, u) == map[k := [u, u]];
  }
}
