/**
 * The baseline classifier (classification.py): an identity scaler and
 * `SelfmadeNaive`, which sums the training vectors of every category and
 * scores a vector by adding up its entries where the category's sum is
 * positive.
 *
 * Vectors are sequences of reals: numpy's floating point is idealised to
 * exact arithmetic, and numpy broadcasting is replaced by the requirement that
 * vectors added or compared have the same length.
 */
module Classification {
  import opened Wrappers
  import opened Strings

  type Vector = seq<real>

  /** A training vector with its category. */
  type Sample = (Vector, string)

  // ===========================================================================
  // DummyScaler

  /** A scaler that leaves the data as it is. */
  class DummyScaler {
    constructor () {}

    method FitTransform(X: seq<Vector>) returns (r: seq<Vector>)
      ensures r == X
    {
      r := X;
    }

    method Transform(X: seq<Vector>) returns (r: seq<Vector>)
      ensures r == X
    {
      r := X;
    }
  }

  // ===========================================================================
  // Vectors

  /** `zeros(n)`. */
  function Zeros(n: nat): Vector
  {
    seq(n, _ => 0.0)
  }

  /** `a + b` on two arrays of one shape. */
  function VecAdd(a: Vector, b: Vector): Vector
    requires |a| == |b|
  {
    seq(|a|, i requires 0 <= i < |a| => a[i] + b[i])
  }

  /** `numpy.sum(x)`. */
  function Sum(x: Vector): real
  {
    if x == [] then 0.0 else Sum(x[..|x| - 1]) + x[|x| - 1]
  }

  /** `numpy.sum((v > 0) * x)`: the sum of the entries of `x` where `v` is
      positive. */
  function MaskedSum(v: Vector, x: Vector): real
    requires |v| == |x|
  {
    if x == [] then 0.0
    else MaskedSum(v[..|v| - 1], x[..|x| - 1]) + (if v[|v| - 1] > 0.0 then x[|x| - 1] else 0.0)
  }

  /** The score depends only on the entries where the category's sum is
      positive: entries the category never saw contribute nothing. */
  lemma {:induction false} MaskedSumIgnoresUnseen(v: Vector, x: Vector, y: Vector)
    requires |v| == |x| == |y|
    requires forall i :: 0 <= i < |v| && v[i] > 0.0 ==> x[i] == y[i]
    ensures MaskedSum(v, x) == MaskedSum(v, y)
  {
    if v != [] {
      var n := |v| - 1;
      MaskedSumIgnoresUnseen(v[..n], x[..n], y[..n]);
    }
  }

  /** Only the sign pattern of the category's sum matters, not its size. */
  lemma {:induction false} MaskedSumSignsOnly(v: Vector, w: Vector, x: Vector)
    requires |v| == |w| == |x|
    requires forall i :: 0 <= i < |v| ==> (v[i] > 0.0 <==> w[i] > 0.0)
    ensures MaskedSum(v, x) == MaskedSum(w, x)
  {
    if v != [] {
      var n := |v| - 1;
      MaskedSumSignsOnly(v[..n], w[..n], x[..n]);
    }
  }

  /** When the vector has weight only where the category is positive, the
      score is the whole sum of the vector. */
  lemma {:induction false} MaskedSumFullSupport(v: Vector, x: Vector)
    requires |v| == |x|
    requires forall i :: 0 <= i < |x| && x[i] != 0.0 ==> v[i] > 0.0
    ensures MaskedSum(v, x) == Sum(x)
  {
    if x != [] {
      var n := |x| - 1;
      MaskedSumFullSupport(v[..n], x[..n]);
    }
  }

  /** On a vector without negative entries the score lies between 0 and the
      sum of the vector. */
  lemma {:induction false} MaskedSumBounds(v: Vector, x: Vector)
    requires |v| == |x|
    requires forall i :: 0 <= i < |x| ==> x[i] >= 0.0
    ensures 0.0 <= MaskedSum(v, x) <= Sum(x)
  {
    if x != [] {
      var n := |x| - 1;
      MaskedSumBounds(v[..n], x[..n]);
    }
  }

  // ===========================================================================
  // argmax

  /** `numpy.argmax(s)`: the first index of the largest entry. */
  function ArgMax(s: seq<real>): (r: nat)
    requires |s| > 0
    ensures r < |s|
    ensures forall j :: 0 <= j < |s| ==> s[j] <= s[r]
    ensures forall j :: 0 <= j < r ==> s[j] < s[r]
  {
    if |s| == 1 then 0
    else
      var k := ArgMax(s[..|s| - 1]);
      if s[|s| - 1] > s[k] then |s| - 1 else k
  }

  /** The first index of the largest entry is unique: any index that has the
      largest entry and comes before every other one is the argmax. */
  lemma ArgMaxUnique(s: seq<real>, r: nat)
    requires r < |s|
    requires forall j :: 0 <= j < |s| ==> s[j] <= s[r]
    requires forall j :: 0 <= j < r ==> s[j] < s[r]
    ensures ArgMax(s) == r
  {
    var k := ArgMax(s);
    assert s[k] <= s[r] && s[r] <= s[k];
  }

  // ===========================================================================
  // Training: the fold over the `(x, category)` pairs

  /** `zip(X, tags)`: the pairs up to the shorter of the two. */
  function Zip(X: seq<Vector>, tags: seq<string>): (r: seq<Sample>)
    ensures |r| == if |X| < |tags| then |X| else |tags|
    ensures forall k :: 0 <= k < |r| ==> r[k] == (X[k], tags[k])
  {
    seq(if |X| < |tags| then |X| else |tags|, k requires 0 <= k < |X| && k < |tags| => (X[k], tags[k]))
  }

  /** `base.get(c, zeros(n))`. */
  function Prior(base: map<string, Vector>, c: string, n: nat): Vector
  {
    if c in base then base[c] else Zeros(n)
  }

  /** The vector `x` can be added to the sum of `c`: the two have one shape. */
  predicate Fits(base: map<string, Vector>, sample: Sample)
  {
    sample.1 in base ==> |base[sample.1]| == |sample.0|
  }

  /** One step of `fit`: `base[c] = x + base.get(c, zeros(len(x)))`. */
  function AddSample(base: map<string, Vector>, sample: Sample): (r: map<string, Vector>)
    requires Fits(base, sample)
    ensures r.Keys == base.Keys + {sample.1}
  {
    var (x, c) := sample;
    base[c := VecAdd(x, Prior(base, c, |x|))]
  }

  /** The per-category sums after adding the pairs one by one to `base`, as
      the loop of `fit` does; `None` when a vector does not have the shape of
      the sum it is added to. */
  function Accumulate(base: map<string, Vector>, pairs: seq<Sample>): Option<map<string, Vector>>
  {
    if pairs == [] then Some(base)
    else
      match Accumulate(base, pairs[..|pairs| - 1])
      case None => None
      case Some(acc) =>
        if Fits(acc, pairs[|pairs| - 1]) then Some(AddSample(acc, pairs[|pairs| - 1])) else None
  }

  /** The categories the pairs name. */
  function TagSet(pairs: seq<Sample>): set<string>
  {
    set k | 0 <= k < |pairs| :: pairs[k].1
  }

  /** The sums have a key for every earlier category and for every category
      the pairs name, and for no other. */
  lemma {:induction false} AccumulateKeys(base: map<string, Vector>, pairs: seq<Sample>)
    requires Accumulate(base, pairs).Some?
    ensures Accumulate(base, pairs).value.Keys == base.Keys + TagSet(pairs)
  {
    if pairs != [] {
      var init := pairs[..|pairs| - 1];
      AccumulateKeys(base, init);
      TagSetStep(pairs, init);
    }
  }

  /** The categories of the pairs are those of all but the last pair, and the
      last pair's. */
  lemma TagSetStep(pairs: seq<Sample>, init: seq<Sample>)
    requires pairs != [] && init == pairs[..|pairs| - 1]
    ensures TagSet(pairs) == TagSet(init) + {pairs[|pairs| - 1].1}
  {
    forall c | c in TagSet(pairs) ensures c in TagSet(init) + {pairs[|pairs| - 1].1} {
      var k :| 0 <= k < |pairs| && pairs[k].1 == c;
      if k < |init| { assert init[k] == pairs[k]; }
    }
    forall c | c in TagSet(init) ensures c in TagSet(pairs) {
      var k :| 0 <= k < |init| && init[k].1 == c;
      assert pairs[k] == init[k];
    }
  }

  /** The sum of entry `i` of the vectors tagged `c`. */
  function TaggedSum(pairs: seq<Sample>, c: string, i: nat): real
  {
    if pairs == [] then 0.0
    else
      var (x, t) := pairs[|pairs| - 1];
      TaggedSum(pairs[..|pairs| - 1], c, i) + (if t == c && i < |x| then x[i] else 0.0)
  }

  /** The closed form of the fold: entry `i` of a category's sum is its
      earlier value (0 for a new category) plus entry `i` of every vector
      tagged with it. */
  lemma {:induction false} AccumulateAt(base: map<string, Vector>, pairs: seq<Sample>, c: string, i: nat)
    requires Accumulate(base, pairs).Some?
    requires c in Accumulate(base, pairs).value && i < |Accumulate(base, pairs).value[c]|
    ensures Accumulate(base, pairs).value[c][i]
            == (if c in base && i < |base[c]| then base[c][i] else 0.0) + TaggedSum(pairs, c, i)
  {
    if pairs != [] {
      var init := pairs[..|pairs| - 1];
      var acc := Accumulate(base, init).value;
      var (x, t) := pairs[|pairs| - 1];
      if t == c && c !in acc {
        AccumulateKeys(base, init);
        UntaggedSumsToZero(init, c, i);
      } else {
        AccumulateAt(base, init, c, i);
      }
    }
  }

  /** A category that no pair names sums to nothing. */
  lemma {:induction false} UntaggedSumsToZero(pairs: seq<Sample>, c: string, i: nat)
    requires c !in TagSet(pairs)
    ensures TaggedSum(pairs, c, i) == 0.0
  {
    if pairs != [] {
      var init := pairs[..|pairs| - 1];
      assert forall k :: 0 <= k < |init| ==> init[k] == pairs[k];
      UntaggedSumsToZero(init, c, i);
    }
  }

  /** Fitting twice is fitting once on all the pairs: `fit` never resets the
      sums. */
  lemma {:induction false} AccumulateConcat(base: map<string, Vector>, p1: seq<Sample>, p2: seq<Sample>)
    ensures Accumulate(base, p1 + p2)
            == match Accumulate(base, p1)
               case None => None
               case Some(acc) => Accumulate(acc, p2)
  {
    if p2 == [] {
      assert p1 + p2 == p1;
    } else {
      AccumulateConcat(base, p1, p2[..|p2| - 1]);
      assert (p1 + p2)[..|p1 + p2| - 1] == p1 + p2[..|p2| - 1];
      assert (p1 + p2)[|p1 + p2| - 1] == p2[|p2| - 1];
    }
  }

  /** Once a vector does not fit, no later pair can repair the fold. */
  lemma {:induction false} AccumulatePrefixFits(base: map<string, Vector>, pairs: seq<Sample>, n: nat)
    requires n <= |pairs| && Accumulate(base, pairs).Some?
    ensures Accumulate(base, pairs[..n]).Some?
  {
    AccumulateConcat(base, pairs[..n], pairs[n..]);
    assert pairs[..n] + pairs[n..] == pairs;
  }

  /** One more pair of a fold that succeeds: the pair fits the sums so far,
      and adding it gives the sums of the longer prefix. */
  lemma FoldStep(base: map<string, Vector>, pairs: seq<Sample>, i: nat, acc: map<string, Vector>)
    requires i < |pairs| && Accumulate(base, pairs).Some?
    requires Accumulate(base, pairs[..i]) == Some(acc)
    ensures Fits(acc, pairs[i])
    ensures Accumulate(base, pairs[..i + 1]) == Some(AddSample(acc, pairs[i]))
  {
    AccumulatePrefixFits(base, pairs, i + 1);
    assert pairs[..i + 1][..i] == pairs[..i];
  }

  // ===========================================================================
  // SortedSet.add

  /** `s.add(x)` on a sorted set held as its strictly ascending elements. */
  function SetAdd(s: seq<string>, x: string): (r: seq<string>)
    ensures forall y :: y in r <==> y in s || y == x
  {
    if x in s then s
    else
      assert x in multiset(InsertSorted(s, x));
      assert forall y :: y in InsertSorted(s, x) <==> y in multiset(InsertSorted(s, x));
      InsertSorted(s, x)
  }

  lemma SetAddSorted(s: seq<string>, x: string)
    requires StrictlySorted(s)
    ensures StrictlySorted(SetAdd(s, x))
  {
    if x !in s {
      InsertSortedStrictlySorted(s, x);
    }
  }

  /** `cats` is the sorted set of the keys of `base`. */
  ghost predicate Indexes(cats: seq<string>, base: map<string, Vector>)
  {
    StrictlySorted(cats) && forall c :: c in cats <==> c in base
  }

  /** Adding a sample's category to the set keeps it the sorted set of the
      keys of the sums. */
  lemma AddSampleIndexes(cats: seq<string>, base: map<string, Vector>, sample: Sample)
    requires Indexes(cats, base) && Fits(base, sample)
    ensures Indexes(SetAdd(cats, sample.1), AddSample(base, sample))
  {
    SetAddSorted(cats, sample.1);
  }

  /** After a fold, the sorted set of the keys holds the earlier categories
      and those the pairs name. */
  lemma FoldIndexes(cats0: seq<string>, base0: map<string, Vector>, pairs: seq<Sample>,
                    cats: seq<string>, base: map<string, Vector>)
    requires Indexes(cats0, base0) && Indexes(cats, base)
    requires Accumulate(base0, pairs) == Some(base)
    ensures forall c :: c in cats <==> c in cats0 || c in TagSet(pairs)
  {
    AccumulateKeys(base0, pairs);
  }

  /** One iteration of the loop of `fit`, on values: the pair `(x, c)` fits
      the sums so far, updating the sums and the set extends the fold by one
      pair and keeps the set the sorted keys of the sums. */
  lemma FitStep(base0: map<string, Vector>, pairs: seq<Sample>, i: nat,
                acc: map<string, Vector>, cats: seq<string>, x: Vector, c: string)
    requires i < |pairs| && Accumulate(base0, pairs).Some?
    requires Accumulate(base0, pairs[..i]) == Some(acc) && Indexes(cats, acc)
    requires pairs[i] == (x, c)
    ensures c in acc ==> |acc[c]| == |x|
    ensures Accumulate(base0, pairs[..i + 1]) == Some(acc[c := VecAdd(x, Prior(acc, c, |x|))])
    ensures Indexes(SetAdd(cats, c), acc[c := VecAdd(x, Prior(acc, c, |x|))])
  {
    FoldStep(base0, pairs, i, acc);
    AddSampleIndexes(cats, acc, (x, c));
  }

  // ===========================================================================
  // Scores and predictions

  /** One score per category, in the order of `cats`. */
  function Scores(base: map<string, Vector>, cats: seq<string>, X: Vector): (r: seq<real>)
    requires forall c :: c in cats ==> c in base && |base[c]| == |X|
    ensures |r| == |cats|
  {
    seq(|cats|, j requires 0 <= j < |cats| => MaskedSum(base[cats[j]], X))
  }

  /** `predict` as a function of the sums and the sorted categories: the
      category of the first best score for every vector, and the
      `ValueError` of `argmax` on an empty score list. */
  function Predictions(base: map<string, Vector>, cats: seq<string>, Xs: seq<Vector>): (r: Result<seq<string>>)
    requires forall c, i :: c in cats && 0 <= i < |Xs| ==> c in base && |base[c]| == |Xs[i]|
    ensures r.Failure? <==> |Xs| > 0 && cats == []
    ensures r.Failure? ==> r.error == ValueError
    ensures r.Success? ==> |r.value| == |Xs|
    ensures r.Success? ==> forall i :: 0 <= i < |Xs| ==>
              cats != [] && r.value[i] == cats[ArgMax(Scores(base, cats, Xs[i]))]
  {
    if |Xs| > 0 && cats == [] then Failure(ValueError)
    else
      var r := seq(|Xs|, i requires 0 <= i < |Xs| => cats[ArgMax(Scores(base, cats, Xs[i]))]);
      assert forall i :: 0 <= i < |Xs| ==> r[i] == cats[ArgMax(Scores(base, cats, Xs[i]))];
      Success(r)
  }

  /** Ties go to the lexicographically smallest category: the predicted
      category has the largest score, and every other category with that score
      comes after it in the sorted order. */
  lemma PredictionIsSmallestBest(cats: seq<string>, scores: seq<real>, j: nat)
    requires StrictlySorted(cats) && |scores| == |cats| && j < |cats|
    ensures scores[j] <= scores[ArgMax(scores)]
    ensures scores[j] == scores[ArgMax(scores)] ==> LexLe(cats[ArgMax(scores)], cats[j])
  {
    var k := ArgMax(scores);
    if scores[j] == scores[k] && j != k {
      assert k < j;
    }
  }

  /** The number of positions below `n` where the prediction is the tag. */
  function Matches(preds: seq<string>, tags: seq<string>, n: nat): (r: nat)
    requires n <= |preds| && n <= |tags|
    ensures r <= n
  {
    if n == 0 then 0 else Matches(preds, tags, n - 1) + (if preds[n - 1] == tags[n - 1] then 1 else 0)
  }

  /** `score`'s arithmetic: the share of the zipped pairs where the
      prediction is the tag, and a `ZeroDivisionError` when there are none. */
  function Accuracy(preds: seq<string>, tags: seq<string>): (r: Result<real>)
    ensures r.Failure? <==> preds == [] || tags == []
    ensures r.Failure? ==> r.error == ZeroDivisionError
    ensures r.Success? ==> 0.0 <= r.value <= 1.0
  {
    var n := if |preds| < |tags| then |preds| else |tags|;
    if n == 0 then Failure(ZeroDivisionError)
    else
      var m := Matches(preds, tags, n);
      ShareBounds(m, n);
      Success(m as real / n as real)
  }

  /** A part of a whole is a share between 0 and 1. */
  lemma ShareBounds(m: nat, n: nat)
    requires 0 < n && m <= n
    ensures 0.0 <= m as real / n as real <= 1.0
  {
    assert m as real <= n as real;
  }

  lemma {:induction false} AllMatch(preds: seq<string>, tags: seq<string>, n: nat)
    requires n <= |preds| && n <= |tags|
    requires forall i :: 0 <= i < n ==> preds[i] == tags[i]
    ensures Matches(preds, tags, n) == n
  {
    if n > 0 { AllMatch(preds, tags, n - 1); }
  }

  /** All predictions right is a score of 1. */
  lemma PerfectAccuracy(preds: seq<string>, tags: seq<string>)
    requires |preds| == |tags| > 0 && preds == tags
    ensures Accuracy(preds, tags) == Success(1.0)
  {
    var n := |preds|;
    AllMatch(preds, tags, n);
    assert n as real / n as real == 1.0;
  }

  // ===========================================================================
  // SelfmadeNaive

  /** `SelfmadeNaive`: a sorted dictionary from category to the sum of its
      training vectors and the sorted set of categories, held as a map and
      the strictly ascending sequence of its elements. */
  class SelfmadeNaive {
    var perCategoryBase: map<string, Vector>
    var categories: seq<string>

    /** The categories are sorted without duplicates and are exactly the
        keys of the sums. */
    ghost predicate Valid()
      reads this
    {
      Indexes(categories, perCategoryBase)
    }

    constructor ()
      ensures Valid()
      ensures perCategoryBase == map[] && categories == []
    {
      perCategoryBase := map[];
      categories := [];
    }

    /** `fit`: adds every zipped `(x, category)` pair to the category's sum
        and the category to the set, keeping what earlier calls left. */
    method Fit(X: seq<Vector>, tags: seq<string>)
      requires Valid()
      requires Accumulate(perCategoryBase, Zip(X, tags)).Some?
      modifies this
      ensures Valid()
      ensures Some(perCategoryBase) == Accumulate(old(perCategoryBase), Zip(X, tags))
      ensures forall c :: c in categories <==> c in old(categories) || c in TagSet(Zip(X, tags))
    {
      ghost var pairs := Zip(X, tags);
      ghost var base0, cats0 := perCategoryBase, categories;
      var n := if |X| < |tags| then |X| else |tags|;
      var i := 0;
      assert pairs[..0] == [];
      while i < n
        invariant 0 <= i <= n
        invariant Accumulate(base0, pairs[..i]) == Some(perCategoryBase)
        invariant Indexes(categories, perCategoryBase)
      {
        var x, category := X[i], tags[i];
        FitStep(base0, pairs, i, perCategoryBase, categories, x, category);
        perCategoryBase := perCategoryBase[category := VecAdd(x, Prior(perCategoryBase, category, |x|))];
        categories := SetAdd(categories, category);
        i := i + 1;
      }
      assert pairs[..i] == pairs;
      FoldIndexes(cats0, base0, pairs, categories, perCategoryBase);
    }

    /** `predict_proba`: for every vector, its score against every category,
        in the sorted order of the categories. */
    method PredictProba(Xs: seq<Vector>) returns (probas: seq<seq<real>>)
      requires Valid()
      requires forall c, i :: c in perCategoryBase && 0 <= i < |Xs| ==> |perCategoryBase[c]| == |Xs[i]|
      ensures |probas| == |Xs|
      ensures forall i :: 0 <= i < |Xs| ==> |probas[i]| == |categories|
      ensures forall i, j :: 0 <= i < |Xs| && 0 <= j < |categories| ==>
                probas[i][j] == MaskedSum(perCategoryBase[categories[j]], Xs[i])
    {
      var keys := SortedKeys(perCategoryBase);
      SortedUnique(keys, categories);
      probas := [];
      var n := 0;
      while n < |Xs|
        invariant 0 <= n <= |Xs|
        invariant |probas| == n
        invariant forall i :: 0 <= i < n ==> |probas[i]| == |keys|
        invariant forall i, j :: 0 <= i < n && 0 <= j < |keys| ==>
                    probas[i][j] == MaskedSum(perCategoryBase[keys[j]], Xs[i])
      {
        var x := Xs[n];
        var result: seq<real> := [];
        var j := 0;
        while j < |keys|
          invariant 0 <= j <= |keys|
          invariant |result| == j
          invariant forall k :: 0 <= k < j ==> result[k] == MaskedSum(perCategoryBase[keys[k]], x)
        {
          var score := MaskedSum(perCategoryBase[keys[j]], x);
          result := result + [score];
          j := j + 1;
        }
        probas := probas + [result];
        n := n + 1;
      }
    }

    /** `predict`: the category of the first best score for every vector. An
        unfitted model has no scores, and `argmax` fails on them. */
    method Predict(Xs: seq<Vector>) returns (r: Result<seq<string>>)
      requires Valid()
      requires forall c, i :: c in perCategoryBase && 0 <= i < |Xs| ==> |perCategoryBase[c]| == |Xs[i]|
      ensures r == Predictions(perCategoryBase, categories, Xs)
    {
      var probas := PredictProba(Xs);
      if |Xs| > 0 && categories == [] {
        return Failure(ValueError);
      }
      var cats := categories;
      var labels := seq(|probas|, i requires 0 <= i < |probas| => cats[ArgMax(probas[i])]);
      forall i | 0 <= i < |Xs| ensures probas[i] == Scores(perCategoryBase, categories, Xs[i]) {
      }
      assert labels == Predictions(perCategoryBase, categories, Xs).value;
      r := Success(labels);
    }

    /** `score`: the share of correct predictions over the zipped pairs. */
    method Score(Xs: seq<Vector>, tags: seq<string>) returns (r: Result<real>)
      requires Valid()
      requires forall c, i :: c in perCategoryBase && 0 <= i < |Xs| ==> |perCategoryBase[c]| == |Xs[i]|
      ensures r == match Predictions(perCategoryBase, categories, Xs)
                   case Failure(e) => Failure(e)
                   case Success(preds) => Accuracy(preds, tags)
    {
      var predictions := Predict(Xs);
      if predictions.Failure? {
        return Failure(predictions.error);
      }
      r := Accuracy(predictions.value, tags);
    }
  }

  /** The iteration order of a sorted dictionary: its keys, ascending. */
  method SortedKeys(m: map<string, Vector>) returns (keys: seq<string>)
    ensures StrictlySorted(keys)
    ensures forall k :: k in keys <==> k in m
  {
    keys := [];
    var rest := m.Keys;
    while rest != {}
      invariant rest <= m.Keys
      invariant StrictlySorted(keys)
      invariant forall k :: k in keys <==> k in m.Keys - rest
      decreases rest
    {
      var k :| k in rest;
      SetAddSorted(keys, k);
      keys := SetAdd(keys, k);
      rest := rest - {k};
    }
  }
}
