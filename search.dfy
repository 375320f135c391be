/** `find_similar_movies` (src/app.py:65-77): pick the positions of the k
    highest similarity scores, highest first, and return the table rows at
    those positions; any exception on the way yields an empty result.

    The scores themselves come from scikit-learn (TF-IDF and cosine
    similarity) and the ascending order of positions from numpy's `argsort`;
    both are inputs here. */
module Search {
  import opened Dataset

  /** A similarity score; only its order matters to the selection. */
  type Score = int

  datatype Option<T> = None | Some(value: T)

  /** A row of the search result together with its index label. The table
      comes from `read_csv` with its default index, so a row's label is its
      position in the table. */
  datatype Hit = Hit(rowLabel: nat, movie: Movie)

  /** What the vectorise-and-score step hands over: either it raised, or it
      produced one score per document together with numpy's
      `scores.argsort()`. */
  datatype Scoring = Raised | Scored(scores: seq<Score>, ascending: seq<nat>)

  /** `order` is what `scores.argsort()` may return: every position exactly
      once, with scores non-decreasing along it. Equal scores may come in any
      order, since numpy's default sort is not stable. */
  predicate IsArgsort(scores: seq<Score>, order: seq<nat>)
  {
    && |order| == |scores|
    && (forall i :: 0 <= i < |order| ==> order[i] < |scores|)
    && (forall i, j :: 0 <= i < j < |order| ==> order[i] != order[j])
    && (forall x :: 0 <= x < |scores| ==> x in order)
    && (forall i, j :: 0 <= i <= j < |order| ==> scores[order[i]] <= scores[order[j]])
  }

  predicate WellFormed(s: Scoring)
  {
    s.Scored? ==> IsArgsort(s.scores, s.ascending)
  }

  function Min(a: int, b: int): int { if a <= b then a else b }
  function Max(a: int, b: int): int { if a <= b then b else a }

  /** CPython's adjustment of a slice bound for a negative step over a
      sequence of length n: a negative bound counts from the end, and the
      result is clamped to [-1, n - 1]. */
  function ClampForReverse(bound: int, n: nat): (r: int)
    ensures -1 <= r < n
  {
    if bound < 0 then (if bound + n < 0 then -1 else bound + n)
    else if bound >= n then n - 1
    else bound
  }

  /** The elements of `s`, last first. */
  function Reversed<T>(s: seq<T>): seq<T>
  {
    if s == [] then [] else [s[|s| - 1]] + Reversed(s[..|s| - 1])
  }

  lemma {:induction false} ReversedIndex<T>(s: seq<T>)
    ensures |Reversed(s)| == |s|
    ensures forall i :: 0 <= i < |s| ==> Reversed(s)[i] == s[|s| - 1 - i]
  {
    if s != [] {
      ReversedIndex(s[..|s| - 1]);
    }
  }

  /** A sequence that holds the elements of `s` last first is `Reversed(s)`. */
  lemma ReversedByIndex<T>(r: seq<T>, s: seq<T>)
    requires |r| == |s|
    requires forall i :: 0 <= i < |s| ==> r[i] == s[|s| - 1 - i]
    ensures r == Reversed(s)
  {
    ReversedIndex(s);
  }

  /** Reading `a` from position `hi` down to just above `lo` gives the
      forward slice between them, reversed. */
  lemma BackwardsIsReversed<T>(a: seq<T>, lo: int, hi: int, r: seq<T>)
    requires -1 <= lo < hi < |a|
    requires |r| == hi - lo
    requires forall i :: 0 <= i < |r| ==> r[i] == a[hi - i]
    ensures r == Reversed(a[lo + 1..hi + 1])
  {
    var forward := a[lo + 1..hi + 1];
    forall i | 0 <= i < |r| ensures r[i] == forward[|forward| - 1 - i] {
    }
    ReversedByIndex(r, forward);
  }

  /** `a[start:stop:-1]`: after both bounds are adjusted, the forward slice
      `a[stop + 1:start + 1]` read backwards, or nothing when the adjusted
      `stop` is not below the adjusted `start`. */
  function ReverseSlice<T>(a: seq<T>, start: int, stop: int): (r: seq<T>)
    ensures var hi, lo := ClampForReverse(start, |a|), ClampForReverse(stop, |a|);
            r == if lo < hi then Reversed(a[lo + 1..hi + 1]) else []
    ensures var hi, lo := ClampForReverse(start, |a|), ClampForReverse(stop, |a|);
            && |r| == Max(0, hi - lo)
            && forall i :: 0 <= i < |r| ==> r[i] == a[hi - i]
  {
    var hi := ClampForReverse(start, |a|);
    var lo := ClampForReverse(stop, |a|);
    if lo < hi then
      var r := seq(hi - lo, i requires 0 <= i < hi - lo => a[hi - i]);
      BackwardsIsReversed(a, lo, hi, r);
      r
    else []
  }

  /** `ascending[-1:-k-1:-1]`: the last min(k, n) entries of the ascending
      order, last first. A negative k makes the slice stop early instead,
      leaving n + k entries (none when that is negative). */
  function TopIndices(ascending: seq<nat>, k: int): (top: seq<nat>)
    ensures k >= 0 ==> |top| == Min(k, |ascending|)
    ensures k < 0 ==> |top| == Max(0, |ascending| + k)
    ensures forall i :: 0 <= i < |top| ==> top[i] == ascending[|ascending| - 1 - i]
  {
    ReverseSlice(ascending, -1, -k - 1)
  }

  /** `rows.iloc[positions]`: the row at each position, in the order given,
      or an IndexError (None) as soon as one position is outside the table. */
  function Select(rows: seq<Movie>, positions: seq<nat>): (r: Option<seq<Hit>>)
    ensures r.Some? <==> forall i :: 0 <= i < |positions| ==> positions[i] < |rows|
    ensures r.Some? ==> |r.value| == |positions|
    ensures r.Some? ==> forall i :: 0 <= i < |positions| ==>
              r.value[i].rowLabel == positions[i] && r.value[i].movie == rows[positions[i]]
  {
    if positions == [] then Some([])
    else if positions[0] >= |rows| then None
    else match Select(rows, positions[1..])
      case None => None
      case Some(rest) => Some([Hit(positions[0], rows[positions[0]])] + rest)
  }

  /** `find_similar_movies`: the rows at the top-k positions, best first. An
      exception while scoring, or a position outside the table, gives the
      empty result instead. */
  function FindSimilarMovies(rows: seq<Movie>, scoring: Scoring, k: int): (found: seq<Hit>)
    requires WellFormed(scoring)
    ensures scoring.Raised? ==> found == []
    ensures scoring.Scored? && |scoring.scores| == |rows| ==>
              var top := TopIndices(scoring.ascending, k);
              |found| == |top| &&
              forall i :: 0 <= i < |found| ==>
                found[i].rowLabel == top[i] && found[i].movie == rows[top[i]]
  {
    match scoring
    case Raised => []
    case Scored(_, ascending) =>
      match Select(rows, TopIndices(ascending, k))
      case None => []
      case Some(hits) => hits
  }

  /** The result has exactly min(k, n) rows for a table of n rows, whatever
      the scores are: nothing is filtered out, so all-zero scores still give
      k rows when n >= k. */
  lemma SearchCount(rows: seq<Movie>, scoring: Scoring, k: int)
    requires WellFormed(scoring) && scoring.Scored? && |scoring.scores| == |rows|
    requires k >= 0
    ensures |FindSimilarMovies(rows, scoring, k)| == Min(k, |rows|)
  {
  }

  /** `top` reads the ascending order backwards from its end, as
      `TopIndices` does for every k. */
  predicate ReadsBackwards(ascending: seq<nat>, top: seq<nat>)
  {
    && |top| <= |ascending|
    && forall i :: 0 <= i < |top| ==> top[i] == ascending[|ascending| - 1 - i]
  }

  /** The selected positions, for any argsort numpy may return: valid and
      pairwise distinct, best score first, and no position left out scores
      higher than one selected. */
  lemma TopIndicesAreTopK(scores: seq<Score>, ascending: seq<nat>, k: int)
    requires IsArgsort(scores, ascending)
    ensures var top := TopIndices(ascending, k);
            && (forall i :: 0 <= i < |top| ==> top[i] < |scores|)
            && (forall i, j :: 0 <= i < j < |top| ==> top[i] != top[j])
            && (forall i, j :: 0 <= i <= j < |top| ==> scores[top[i]] >= scores[top[j]])
            && (forall x, i :: 0 <= x < |scores| && x !in top && 0 <= i < |top| ==>
                  scores[x] <= scores[top[i]])
  {
    var top := TopIndices(ascending, k);
    assert ReadsBackwards(ascending, top);
    BackwardsValidDistinct(|scores|, ascending, top);
    BackwardsDescending(scores, ascending, top);
    BackwardsLeftOut(scores, ascending, top);
  }

  lemma BackwardsValidDistinct(n: nat, ascending: seq<nat>, top: seq<nat>)
    requires ReadsBackwards(ascending, top)
    requires forall i :: 0 <= i < |ascending| ==> ascending[i] < n
    requires forall i, j :: 0 <= i < j < |ascending| ==> ascending[i] != ascending[j]
    ensures forall i :: 0 <= i < |top| ==> top[i] < n
    ensures forall i, j :: 0 <= i < j < |top| ==> top[i] != top[j]
  {
    var m := |ascending|;
    forall i | 0 <= i < |top| ensures top[i] < n {
      assert top[i] == ascending[m - 1 - i];
    }
    forall i, j | 0 <= i < j < |top| ensures top[i] != top[j] {
      assert top[i] == ascending[m - 1 - i] && top[j] == ascending[m - 1 - j];
    }
  }

  lemma BackwardsDescending(scores: seq<Score>, ascending: seq<nat>, top: seq<nat>)
    requires ReadsBackwards(ascending, top)
    requires forall i :: 0 <= i < |ascending| ==> ascending[i] < |scores|
    requires forall i, j :: 0 <= i <= j < |ascending| ==> scores[ascending[i]] <= scores[ascending[j]]
    ensures forall i, j :: 0 <= i <= j < |top| ==> scores[top[i]] >= scores[top[j]]
  {
    var m := |ascending|;
    forall i, j | 0 <= i <= j < |top| ensures scores[top[i]] >= scores[top[j]] {
      assert top[i] == ascending[m - 1 - i] && top[j] == ascending[m - 1 - j];
    }
  }

  /** The selection is a suffix of the ascending order: every entry from
      position m - |top| on is selected. */
  lemma BackwardsIsSuffix(ascending: seq<nat>, top: seq<nat>, p: nat)
    requires ReadsBackwards(ascending, top) && p < |ascending|
    ensures p >= |ascending| - |top| ==> ascending[p] in top
  {
    if p >= |ascending| - |top| {
      assert top[|ascending| - 1 - p] == ascending[p];
    }
  }

  lemma BackwardsLeftOut(scores: seq<Score>, ascending: seq<nat>, top: seq<nat>)
    requires ReadsBackwards(ascending, top)
    requires forall i :: 0 <= i < |ascending| ==> ascending[i] < |scores|
    requires forall x :: 0 <= x < |scores| ==> x in ascending
    requires forall i, j :: 0 <= i <= j < |ascending| ==> scores[ascending[i]] <= scores[ascending[j]]
    ensures forall x, i :: 0 <= x < |scores| && x !in top && 0 <= i < |top| ==>
              scores[x] <= scores[top[i]]
  {
    var m := |ascending|;
    forall x, i | 0 <= x < |scores| && x !in top && 0 <= i < |top|
      ensures scores[x] <= scores[top[i]]
    {
      assert x in ascending;
      var p :| 0 <= p < m && ascending[p] == x;
      BackwardsIsSuffix(ascending, top, p);
      assert top[i] == ascending[m - 1 - i];
    }
  }

  /** Every result row is the table row at its label, a valid position, and
      no position is returned twice. */
  lemma SearchRowsDistinct(rows: seq<Movie>, scoring: Scoring, k: int)
    requires WellFormed(scoring) && scoring.Scored? && |scoring.scores| == |rows|
    ensures var found := FindSimilarMovies(rows, scoring, k);
            && (forall i :: 0 <= i < |found| ==>
                  found[i].rowLabel < |rows| && found[i].movie == rows[found[i].rowLabel])
            && (forall i, j :: 0 <= i < j < |found| ==> found[i].rowLabel != found[j].rowLabel)
  {
    TopIndicesAreTopK(scoring.scores, scoring.ascending, k);
  }

  /** The result is best first: scores never increase along it. */
  lemma SearchDescending(rows: seq<Movie>, scoring: Scoring, k: int)
    requires WellFormed(scoring) && scoring.Scored? && |scoring.scores| == |rows|
    ensures var found := FindSimilarMovies(rows, scoring, k);
            forall i, j :: 0 <= i <= j < |found| ==>
              scoring.scores[found[i].rowLabel] >= scoring.scores[found[j].rowLabel]
  {
    TopIndicesAreTopK(scoring.scores, scoring.ascending, k);
  }

  /** The result really is a top k: a table position left out of it scores
      no higher than any position in it. */
  lemma SearchIsTopK(rows: seq<Movie>, scoring: Scoring, k: int)
    requires WellFormed(scoring) && scoring.Scored? && |scoring.scores| == |rows|
    ensures var found := FindSimilarMovies(rows, scoring, k);
            forall x, i :: 0 <= x < |rows| && 0 <= i < |found| &&
                           (forall j :: 0 <= j < |found| ==> found[j].rowLabel != x) ==>
              scoring.scores[x] <= scoring.scores[found[i].rowLabel]
  {
    var top := TopIndices(scoring.ascending, k);
    var found := FindSimilarMovies(rows, scoring, k);
    assert ReadsBackwards(scoring.ascending, top);
    BackwardsLeftOut(scoring.scores, scoring.ascending, top);
    assert |found| == |top| && forall j :: 0 <= j < |top| ==> top[j] == found[j].rowLabel;
    forall x, i | 0 <= x < |rows| && 0 <= i < |found| &&
                  (forall j :: 0 <= j < |found| ==> found[j].rowLabel != x)
      ensures scoring.scores[x] <= scoring.scores[found[i].rowLabel]
    {
      assert forall j :: 0 <= j < |top| ==> top[j] != x;
      assert x !in top;
    }
  }
}
