/**
 * Cronbach's alpha of a set of items over the response grid:
 *   alpha = (k / (k - 1)) * (1 - covpq / varx)
 * where k is the number of items, covpq sums each item's
 * ones * (answered - ones) / answered^2, and varx is the sample variance
 * of the candidates' total scores.  Values are exact reals here.
 */
module Reliability {
  import opened Dicts
  import opened Responses

  /** What a cell adds to a count of ones or to a score: its point, or nothing when blank. */
  function Credit(s: Score): nat
  {
    if s.Scored? then s.point else 0
  }

  /** The total credit of a sequence of cells (`ones` of an item, or a candidate's score). */
  function Ones(cells: seq<Score>): nat
  {
    if cells == [] then 0 else Ones(cells[..|cells| - 1]) + Credit(cells[|cells| - 1])
  }

  /** How many cells of a sequence hold a response (`ones_and_zeros`). */
  function Answered(cells: seq<Score>): nat
  {
    if cells == [] then 0
    else Answered(cells[..|cells| - 1]) + (if cells[|cells| - 1].Scored? then 1 else 0)
  }

  /** 0 <= ones <= answered <= number of cells. */
  lemma {:induction false} CountsBounded(cells: seq<Score>)
    ensures Ones(cells) <= Answered(cells) <= |cells|
  {
    if cells != [] {
      CountsBounded(cells[..|cells| - 1]);
    }
  }

  /**
   * The counts do not depend on the order of the cells: `ones` is the number
   * of credited cells and `answered` the number of cells that are not blank.
   */
  lemma {:induction false} CountsAreMultiplicities(cells: seq<Score>)
    ensures Ones(cells) == multiset(cells)[Scored(1)]
    ensures Answered(cells) == |cells| - multiset(cells)[Omitted]
  {
    if cells != [] {
      var init, last := cells[..|cells| - 1], cells[|cells| - 1];
      CountsAreMultiplicities(init);
      assert cells == init + [last];
      assert multiset(cells) == multiset(init) + multiset{last};
    }
  }

  /** A blank cell, wherever it stands, adds to neither count. */
  lemma OmissionsIgnored(before: seq<Score>, after: seq<Score>)
    ensures Ones(before + [Omitted] + after) == Ones(before + after)
    ensures Answered(before + [Omitted] + after) == Answered(before + after)
  {
    var s, t := before + [Omitted] + after, before + after;
    CountsAreMultiplicities(s);
    CountsAreMultiplicities(t);
    assert multiset(s) == multiset(t) + multiset{Omitted};
  }

  /** The cells of one item, one per candidate in grid order. */
  ghost function Column(g: Grid, item: ItemId): (col: seq<Score>)
    requires g.Valid() && HasItem(g, item)
    ensures |col| == |g.keys|
    ensures forall j :: 0 <= j < |g.keys| ==> col[j] == g.values[g.keys[j]].values[item]
  {
    seq(|g.keys|, j requires 0 <= j < |g.keys| => g.values[g.keys[j]].values[item])
  }

  /** The cells of one candidate's row on the given items, in item order. */
  ghost function Cells(row: Row, items: seq<ItemId>): (cells: seq<Score>)
    requires forall it :: it in items ==> it in row.values
    ensures |cells| == |items|
    ensures forall j :: 0 <= j < |items| ==> cells[j] == row.values[items[j]]
  {
    seq(|items|, j requires 0 <= j < |items| => row.values[items[j]])
  }

  /**
   * The counting loop of one item: over the candidates in grid order, adds
   * each non-blank cell's point to `ones` and one to `answered`.
   */
  method CountResponses(g: Grid, item: ItemId) returns (ones: nat, answered: nat)
    requires g.Valid() && HasItem(g, item)
    ensures ones == Ones(Column(g, item)) && answered == Answered(Column(g, item))
    ensures ones <= answered <= |g.keys|
  {
    ghost var col := Column(g, item);
    ones, answered := 0, 0;
    for j := 0 to |g.keys|
      invariant ones == Ones(col[..j]) && answered == Answered(col[..j])
    {
      var result := g.values[g.keys[j]].values[item];
      assert col[..j + 1] == col[..j] + [result];
      if result.Scored? {
        ones := ones + result.point;
        answered := answered + 1;
      }
    }
    assert col[..|g.keys|] == col;
    CountsBounded(col);
  }

  /** An item's p * q term; it lies between 0 and 1/4. */
  function Pq(ones: nat, answered: nat): (pq: real)
    requires ones <= answered && answered > 0
    ensures 0.0 <= pq <= 0.25
  {
    PqBounded(ones, answered);
    (ones * (answered - ones)) as real / (answered * answered) as real
  }

  lemma PqBounded(ones: nat, answered: nat)
    requires ones <= answered && answered > 0
    ensures 0.0 <= (ones * (answered - ones)) as real / (answered * answered) as real <= 0.25
  {
    var n, d := ones * (answered - ones), answered * answered;
    var e := answered - 2 * ones;
    assert n == ones * answered - ones * ones;
    assert e * e == answered * answered - 4 * (ones * answered) + 4 * (ones * ones);
    assert 4 * n <= d;
    QuotientAtMost(n as real, d as real, 0.25);
  }

  lemma QuotientAtMost(num: real, den: real, bound: real)
    requires num >= 0.0 && den > 0.0 && num <= bound * den
    ensures 0.0 <= num / den <= bound
  {
    var q := num / den;
    assert q * den == num;
    if q > bound {
      assert q * den > bound * den;
    }
  }

  /** Every item of `items` has a cell for every candidate and at least one response. */
  ghost predicate AllAnswered(g: Grid, items: seq<ItemId>)
  {
    Covers(g, items) && forall it :: it in items ==> Answered(Column(g, it)) > 0
  }

  lemma SubsetAnswered(g: Grid, items: seq<ItemId>, sub: seq<ItemId>)
    requires AllAnswered(g, items)
    requires forall it :: it in sub ==> it in items
    ensures AllAnswered(g, sub)
  {
  }

  /** The p * q term of one item of the grid. */
  ghost function ItemPq(g: Grid, item: ItemId): real
    requires g.Valid() && HasItem(g, item) && Answered(Column(g, item)) > 0
  {
    CountsBounded(Column(g, item));
    Pq(Ones(Column(g, item)), Answered(Column(g, item)))
  }

  /** covpq: the sum of the items' p * q terms, in item order; at most k / 4. */
  ghost function CovPq(g: Grid, items: seq<ItemId>): (covpq: real)
    requires AllAnswered(g, items)
    ensures 0.0 <= covpq <= |items| as real / 4.0
  {
    if items == [] then 0.0
    else
      var init := items[..|items| - 1];
      SubsetAnswered(g, items, init);
      CovPq(g, init) + ItemPq(g, items[|items| - 1])
  }

  /** `get_covpq`: the counting loop of every item, summing the p * q terms. */
  method GetCovPq(items: seq<ItemId>, g: Grid) returns (sum: real)
    requires AllAnswered(g, items)
    ensures sum == CovPq(g, items)
    ensures 0.0 <= sum <= |items| as real / 4.0
  {
    sum := 0.0;
    for i := 0 to |items|
      invariant AllAnswered(g, items[..i])
      invariant sum == CovPq(g, items[..i])
    {
      var ones, answered := CountResponses(g, items[i]);
      var pq := Pq(ones, answered);
      sum := sum + pq;
      assert items[..i + 1][..i] == items[..i];
      SubsetAnswered(g, items, items[..i + 1]);
    }
    assert items[..|items|] == items;
  }

  /** A candidate's total score on `items`: the credit of the row's cells. */
  ghost function ScoreOf(row: Row, items: seq<ItemId>): nat
    requires forall it :: it in items ==> it in row.values
  {
    Ones(Cells(row, items))
  }

  /** The candidates' scores on `items`, one per candidate in grid order. */
  ghost function Scores(g: Grid, items: seq<ItemId>): (scores: seq<int>)
    requires Covers(g, items)
    ensures |scores| == |g.keys|
  {
    seq(|g.keys|, j requires 0 <= j < |g.keys| => ScoreOf(g.values[g.keys[j]], items))
  }

  /** The scoring loop of one candidate: adds the point of each non-blank cell. */
  method ScoreCandidate(row: Row, items: seq<ItemId>) returns (score: nat)
    requires forall it :: it in items ==> it in row.values
    ensures score == ScoreOf(row, items)
    ensures score == multiset(Cells(row, items))[Scored(1)] && score <= |items|
  {
    ghost var cells := Cells(row, items);
    score := 0;
    for j := 0 to |items|
      invariant score == Ones(cells[..j])
    {
      var result := row.values[items[j]];
      assert cells[..j + 1] == cells[..j] + [result];
      if result.Scored? {
        score := score + result.point;
      }
    }
    assert cells[..|items|] == cells;
    CountsBounded(cells);
    CountsAreMultiplicities(cells);
  }

  /** The `scores` list of `get_varx`: one score per candidate, in grid order. */
  method CandidateScores(items: seq<ItemId>, g: Grid) returns (scores: seq<int>)
    requires Covers(g, items)
    ensures scores == Scores(g, items)
    ensures forall j :: 0 <= j < |scores| ==> 0 <= scores[j] <= |items|
  {
    scores := [];
    for j := 0 to |g.keys|
      invariant scores == Scores(g, items)[..j]
      invariant forall m :: 0 <= m < j ==> 0 <= scores[m] <= |items|
    {
      var score := ScoreCandidate(g.values[g.keys[j]], items);
      scores := scores + [score];
    }
  }

  function Sum(xs: seq<int>): int
  {
    if xs == [] then 0 else Sum(xs[..|xs| - 1]) + xs[|xs| - 1]
  }

  function Mean(xs: seq<int>): real
    requires |xs| > 0
  {
    Sum(xs) as real / |xs| as real
  }

  /** The squared deviation of one score from `m`; never negative. */
  function SquaredDeviation(x: int, m: real): (r: real)
    ensures r >= 0.0
  {
    (x as real - m) * (x as real - m)
  }

  /** The sum of squared deviations of `xs` from `m`; never negative. */
  function SquaredDeviations(xs: seq<int>, m: real): (r: real)
    ensures r >= 0.0
  {
    if xs == [] then 0.0
    else SquaredDeviations(xs[..|xs| - 1], m) + SquaredDeviation(xs[|xs| - 1], m)
  }

  /** Sample variance with Bessel's correction (divisor n - 1); never negative. */
  function SampleVariance(xs: seq<int>): (v: real)
    requires |xs| >= 2
    ensures v >= 0.0
  {
    SquaredDeviations(xs, Mean(xs)) / (|xs| - 1) as real
  }

  lemma {:induction false} SumOfEqual(xs: seq<int>, x: int)
    requires forall i :: 0 <= i < |xs| ==> xs[i] == x
    ensures Sum(xs) == |xs| * x
  {
    if xs != [] {
      SumOfEqual(xs[..|xs| - 1], x);
    }
  }

  lemma {:induction false} NoDeviationFromEqual(xs: seq<int>, x: int)
    requires forall i :: 0 <= i < |xs| ==> xs[i] == x
    ensures SquaredDeviations(xs, x as real) == 0.0
  {
    if xs != [] {
      NoDeviationFromEqual(xs[..|xs| - 1], x);
    }
  }

  /** Candidates who all have the same score give zero variance, so alpha is undefined for them. */
  lemma EqualScoresNoVariance(xs: seq<int>)
    requires |xs| >= 2
    requires forall i :: 0 <= i < |xs| ==> xs[i] == xs[0]
    ensures SampleVariance(xs) == 0.0
  {
    SumOfEqual(xs, xs[0]);
    assert Mean(xs) == xs[0] as real;
    NoDeviationFromEqual(xs, xs[0]);
  }

  /** `get_varx`: the sample variance of the candidates' scores. */
  method GetVarx(items: seq<ItemId>, g: Grid) returns (varx: real)
    requires Covers(g, items) && |g.keys| >= 2
    ensures varx == SampleVariance(Scores(g, items))
    ensures varx >= 0.0
  {
    var scores := CandidateScores(items, g);
    varx := SampleVariance(scores);
  }

  /**
   * Alpha is defined: at least two items, every item answered at least once,
   * at least two candidates, and scores that are not all alike in variance.
   */
  ghost predicate AlphaDefined(g: Grid, items: seq<ItemId>)
  {
    |items| >= 2 && AllAnswered(g, items) && |g.keys| >= 2 &&
    SampleVariance(Scores(g, items)) != 0.0
  }

  /** The alpha formula (k / (k - 1)) * (1 - covpq / varx); it never exceeds k / (k - 1). */
  function Cronbach(k: real, covpq: real, varx: real): (alpha: real)
    requires k >= 2.0 && covpq >= 0.0 && varx > 0.0
    ensures alpha <= k / (k - 1.0)
  {
    AlphaBounded(k, covpq, varx);
    (k / (k - 1.0)) * (1.0 - covpq / varx)
  }

  lemma AlphaBounded(k: real, covpq: real, varx: real)
    requires k >= 2.0 && covpq >= 0.0 && varx > 0.0
    ensures (k / (k - 1.0)) * (1.0 - covpq / varx) <= k / (k - 1.0)
  {
    var f := k / (k - 1.0);
    assert f > 0.0;
    assert covpq / varx >= 0.0;
  }

  /** Cronbach's alpha of `items`; it never exceeds k / (k - 1). */
  ghost function Alpha(g: Grid, items: seq<ItemId>): (alpha: real)
    requires AlphaDefined(g, items)
    ensures alpha <= |items| as real / (|items| - 1) as real
  {
    Cronbach(|items| as real, CovPq(g, items), SampleVariance(Scores(g, items)))
  }

  /** `get_alpha`: the reliability of the form made of `items`. */
  method GetAlpha(g: Grid, items: seq<ItemId>) returns (alpha: real)
    requires AlphaDefined(g, items)
    ensures alpha == Alpha(g, items)
    ensures alpha <= |items| as real / (|items| - 1) as real
  {
    var k := |items| as real;
    var covpq := GetCovPq(items, g);
    var varx := GetVarx(items, g);
    alpha := Cronbach(k, covpq, varx);
  }

  // Order independence: alpha depends on the items and candidates, not on
  // the order in which the grid and the item list hold them.

  /** Taking out the element at `j` takes one copy of it out of the multiset. */
  lemma MultisetRemoveAt<T>(s: seq<T>, j: nat)
    requires j < |s|
    ensures multiset(s[..j] + s[j + 1..]) == multiset(s) - multiset{s[j]}
  {
    assert s == s[..j] + [s[j]] + s[j + 1..];
  }

  /** Splits a permutation at the last element of `a`: it sits at some `j` in `b`. */
  lemma PermutationSplit<T>(a: seq<T>, b: seq<T>) returns (j: nat)
    requires multiset(a) == multiset(b) && |a| > 0
    ensures j < |b| && b[j] == a[|a| - 1]
    ensures multiset(a[..|a| - 1]) == multiset(b[..j] + b[j + 1..])
  {
    var x := a[|a| - 1];
    assert x in multiset(a);
    j :| 0 <= j < |b| && b[j] == x;
    MultisetRemoveAt(a, |a| - 1);
    MultisetRemoveAt(b, j);
    assert a[..|a| - 1] + a[|a|..] == a[..|a| - 1];
  }

  /** `f` applied to every element of `s`, in order. */
  function Apply<T, U>(s: seq<T>, f: T -> U): (r: seq<U>)
    ensures |r| == |s| && forall i :: 0 <= i < |s| ==> r[i] == f(s[i])
  {
    seq(|s|, i requires 0 <= i < |s| => f(s[i]))
  }

  /** Applying `f` to two arrangements of the same elements gives two arrangements of the same results. */
  lemma {:induction false} ApplyPermutation<T, U>(a: seq<T>, b: seq<T>, f: T -> U)
    requires multiset(a) == multiset(b)
    ensures multiset(Apply(a, f)) == multiset(Apply(b, f))
  {
    if a == [] {
      assert |b| == |multiset(b)| == 0;
    } else {
      var j := PermutationSplit(a, b);
      var a', b' := a[..|a| - 1], b[..j] + b[j + 1..];
      ApplyPermutation(a', b', f);
      var fa, fb := Apply(a, f), Apply(b, f);
      assert fa == Apply(a', f) + [f(a[|a| - 1])];
      assert fb == fb[..j] + [fb[j]] + fb[j + 1..];
      assert Apply(b', f) == fb[..j] + fb[j + 1..];
    }
  }

  lemma {:induction false} SumRemove(xs: seq<int>, j: nat)
    requires j < |xs|
    ensures Sum(xs) == Sum(xs[..j] + xs[j + 1..]) + xs[j]
  {
    var init := xs[..|xs| - 1];
    if j == |xs| - 1 {
      assert xs[..j] + xs[j + 1..] == init;
    } else {
      SumRemove(init, j);
      var rest := init[..j] + init[j + 1..];
      assert xs[..j] + xs[j + 1..] == rest + [xs[|xs| - 1]];
      assert (rest + [xs[|xs| - 1]])[..|rest|] == rest;
    }
  }

  /** The sum of the scores does not depend on their order. */
  lemma {:induction false} SumPermutation(a: seq<int>, b: seq<int>)
    requires multiset(a) == multiset(b)
    ensures Sum(a) == Sum(b)
  {
    if a == [] {
      assert |b| == |multiset(b)| == 0;
    } else {
      var j := PermutationSplit(a, b);
      SumPermutation(a[..|a| - 1], b[..j] + b[j + 1..]);
      SumRemove(b, j);
    }
  }

  lemma {:induction false} DeviationsRemove(xs: seq<int>, m: real, j: nat)
    requires j < |xs|
    ensures SquaredDeviations(xs, m) == SquaredDeviations(xs[..j] + xs[j + 1..], m) + SquaredDeviation(xs[j], m)
  {
    var init, last := xs[..|xs| - 1], xs[|xs| - 1];
    if j == |xs| - 1 {
      assert xs[..j] + xs[j + 1..] == init;
    } else {
      DeviationsRemove(init, m, j);
      var rest := init[..j] + init[j + 1..];
      assert xs[..j] + xs[j + 1..] == rest + [last];
      assert (rest + [last])[..|rest|] == rest;
      assert init[j] == xs[j];
    }
  }

  /** The squared deviations from a given mean do not depend on the order of the scores. */
  lemma {:induction false} DeviationsPermutation(a: seq<int>, b: seq<int>, m: real)
    requires multiset(a) == multiset(b)
    ensures SquaredDeviations(a, m) == SquaredDeviations(b, m)
  {
    if a == [] {
      assert |b| == |multiset(b)| == 0;
    } else {
      var j := PermutationSplit(a, b);
      DeviationsPermutation(a[..|a| - 1], b[..j] + b[j + 1..], m);
      DeviationsRemove(b, m, j);
    }
  }

  /** The sample variance does not depend on the order of the scores. */
  lemma VariancePermutation(a: seq<int>, b: seq<int>)
    requires multiset(a) == multiset(b) && |a| >= 2
    ensures |b| == |a| && SampleVariance(a) == SampleVariance(b)
  {
    assert |a| == |multiset(a)| == |multiset(b)| == |b|;
    SumPermutation(a, b);
    DeviationsPermutation(a, b, Mean(a));
  }

  lemma CovPqAppend(g: Grid, s: seq<ItemId>, x: ItemId)
    requires AllAnswered(g, s + [x])
    ensures AllAnswered(g, s) && CovPq(g, s + [x]) == CovPq(g, s) + ItemPq(g, x)
  {
    assert (s + [x])[..|s|] == s;
  }

  lemma {:induction false} CovPqRemove(g: Grid, s: seq<ItemId>, j: nat)
    requires AllAnswered(g, s) && j < |s|
    ensures AllAnswered(g, s[..j] + s[j + 1..])
    ensures CovPq(g, s) == CovPq(g, s[..j] + s[j + 1..]) + ItemPq(g, s[j])
  {
    var init, last := s[..|s| - 1], s[|s| - 1];
    assert s == init + [last];
    CovPqAppend(g, init, last);
    if j == |s| - 1 {
      assert s[..j] + s[j + 1..] == init;
    } else {
      CovPqRemove(g, init, j);
      CovPqRemoveEarlier(g, init, last, j);
    }
  }

  /** The inductive step of `CovPqRemove` for a position before the last item. */
  lemma CovPqRemoveEarlier(g: Grid, init: seq<ItemId>, last: ItemId, j: nat)
    requires j < |init| && AllAnswered(g, init + [last])
    requires AllAnswered(g, init[..j] + init[j + 1..])
    requires CovPq(g, init) == CovPq(g, init[..j] + init[j + 1..]) + ItemPq(g, init[j])
    ensures var s := init + [last];
      AllAnswered(g, s[..j] + s[j + 1..]) &&
      CovPq(g, s) == CovPq(g, s[..j] + s[j + 1..]) + ItemPq(g, s[j])
  {
    var s, rest := init + [last], init[..j] + init[j + 1..];
    assert s[..j] + s[j + 1..] == rest + [last];
    assert s[j] == init[j];
    SubsetAnswered(g, s, rest + [last]);
    CovPqAppend(g, init, last);
    CovPqAppend(g, rest, last);
  }

  /** covpq does not depend on the order of the items. */
  lemma {:induction false} CovPqPermutation(g: Grid, a: seq<ItemId>, b: seq<ItemId>)
    requires AllAnswered(g, a) && multiset(a) == multiset(b)
    ensures AllAnswered(g, b) && CovPq(g, a) == CovPq(g, b)
  {
    assert forall it :: it in b ==> it in multiset(a);
    SubsetAnswered(g, a, b);
    if a != [] {
      var j := PermutationSplit(a, b);
      var a' := a[..|a| - 1];
      SubsetAnswered(g, a, a');
      CovPqPermutation(g, a', b[..j] + b[j + 1..]);
      CovPqRemove(g, b, j);
    }
  }

  /** A candidate's score does not depend on the order of the items. */
  lemma ScoreOfPermutation(row: Row, a: seq<ItemId>, b: seq<ItemId>)
    requires forall it :: it in a ==> it in row.values
    requires forall it :: it in b ==> it in row.values
    requires multiset(a) == multiset(b)
    ensures ScoreOf(row, a) == ScoreOf(row, b)
  {
    var f := (it: ItemId) => if it in row.values then row.values[it] else Omitted;
    assert Cells(row, a) == Apply(a, f);
    assert Cells(row, b) == Apply(b, f);
    ApplyPermutation(a, b, f);
    CountsAreMultiplicities(Cells(row, a));
    CountsAreMultiplicities(Cells(row, b));
  }

  /** Alpha does not depend on the order of the items of the form. */
  lemma AlphaItemOrder(g: Grid, a: seq<ItemId>, b: seq<ItemId>)
    requires AlphaDefined(g, a) && multiset(a) == multiset(b)
    ensures AlphaDefined(g, b) && Alpha(g, b) == Alpha(g, a)
  {
    assert |a| == |multiset(a)| == |multiset(b)| == |b|;
    CovPqPermutation(g, a, b);
    forall j | 0 <= j < |g.keys|
      ensures Scores(g, a)[j] == Scores(g, b)[j]
    {
      ScoreOfPermutation(g.values[g.keys[j]], a, b);
    }
    assert Scores(g, a) == Scores(g, b);
    AlphaOfEqualParts(g, a, g, b);
  }

  /** Alpha is determined by the number of items, covpq and the score variance. */
  lemma AlphaOfEqualParts(g: Grid, a: seq<ItemId>, h: Grid, b: seq<ItemId>)
    requires AlphaDefined(g, a) && AlphaDefined(h, b) && |a| == |b|
    requires CovPq(g, a) == CovPq(h, b)
    requires SampleVariance(Scores(g, a)) == SampleVariance(Scores(h, b))
    ensures Alpha(g, a) == Alpha(h, b)
  {
  }

  /** An item's counts do not depend on the order of the candidates. */
  lemma ColumnCandidateOrder(g: Grid, h: Grid, item: ItemId)
    requires g.Valid() && h.Valid() && h.values == g.values && multiset(h.keys) == multiset(g.keys)
    requires HasItem(g, item)
    ensures HasItem(h, item)
    ensures Ones(Column(h, item)) == Ones(Column(g, item))
    ensures Answered(Column(h, item)) == Answered(Column(g, item))
  {
    var f := (c: CandidateId) => if c in g.values && item in g.values[c].values then g.values[c].values[item] else Omitted;
    assert Column(g, item) == Apply(g.keys, f);
    assert Column(h, item) == Apply(h.keys, f);
    ApplyPermutation(g.keys, h.keys, f);
    CountsAreMultiplicities(Column(g, item));
    CountsAreMultiplicities(Column(h, item));
  }

  /** Two grids whose items have the same p * q terms have the same covpq. */
  lemma {:induction false} CovPqSameTerms(g: Grid, h: Grid, items: seq<ItemId>)
    requires AllAnswered(g, items) && AllAnswered(h, items)
    requires forall it :: it in items ==> ItemPq(g, it) == ItemPq(h, it)
    ensures CovPq(g, items) == CovPq(h, items)
  {
    if items != [] {
      var init := items[..|items| - 1];
      SubsetAnswered(g, items, init);
      SubsetAnswered(h, items, init);
      CovPqSameTerms(g, h, init);
    }
  }

  /**
   * Alpha does not depend on the order of the candidates: a grid `h` that
   * holds the same rows under a rearrangement of the same candidates has
   * the same alpha.
   */
  lemma AlphaCandidateOrder(g: Grid, h: Grid, items: seq<ItemId>)
    requires AlphaDefined(g, items)
    requires h.Valid() && h.values == g.values && multiset(h.keys) == multiset(g.keys)
    ensures AlphaDefined(h, items) && Alpha(h, items) == Alpha(g, items)
  {
    assert |h.keys| == |multiset(h.keys)| == |multiset(g.keys)| == |g.keys|;
    forall it | it in items
      ensures HasItem(h, it) && Answered(Column(h, it)) > 0 && ItemPq(h, it) == ItemPq(g, it)
    {
      ColumnCandidateOrder(g, h, it);
    }
    assert AllAnswered(h, items);
    CovPqSameTerms(g, h, items);
    var f := (c: CandidateId) => if c in g.values then ScoreOf(g.values[c], items) else 0;
    assert Scores(g, items) == Apply(g.keys, f);
    assert Scores(h, items) == Apply(h.keys, f);
    ApplyPermutation(g.keys, h.keys, f);
    VariancePermutation(Scores(g, items), Scores(h, items));
    AlphaOfEqualParts(h, items, g, items);
  }
}
