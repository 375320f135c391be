/** The text `handle_user_query` sends back (src/app.py:81-103): a fixed
    message when the search found nothing, otherwise a header followed by one
    block per film, separated by blank lines. */
module Reply {
  import opened PyText
  import opened Dataset
  import opened Search

  /** `max_recommendations`, left at its default by the handler. */
  const MaxRecommendations := 5

  const NotFound := "Извините, похожих фильмов не найдено."
  const Header := "Похожие фильмы:\n"
  const BlockSeparator := "\n\n"
  const Rule := "---------------"

  /** The set of index labels in a list of result rows. */
  function Labels(hits: seq<Hit>): set<nat>
  {
    set h | h in hits :: h.rowLabel
  }

  predicate DistinctLabels(hits: seq<Hit>)
  {
    forall i, j :: 0 <= i < j < |hits| ==> hits[i].rowLabel != hits[j].rowLabel
  }

  lemma LabelsConcat(a: seq<Hit>, b: seq<Hit>)
    ensures Labels(a + b) == Labels(a) + Labels(b)
  {
    assert forall h :: h in a + b <==> h in a || h in b;
  }

  lemma LabelsCons(x: Hit, rest: seq<Hit>)
    ensures Labels([x] + rest) == {x.rowLabel} + Labels(rest)
  {
    LabelsConcat([x], rest);
    assert forall h :: h in [x] <==> h == x;
  }

  lemma DistinctCons(x: Hit, rest: seq<Hit>)
    ensures DistinctLabels([x] + rest) <==> x.rowLabel !in Labels(rest) && DistinctLabels(rest)
  {
    var all := [x] + rest;
    if x.rowLabel in Labels(rest) {
      var y :| y in rest && y.rowLabel == x.rowLabel;
      var j :| 0 <= j < |rest| && rest[j] == y;
      assert all[0].rowLabel == all[j + 1].rowLabel;
    }
    if DistinctLabels(all) {
      forall i, j | 0 <= i < j < |rest| ensures rest[i].rowLabel != rest[j].rowLabel {
        assert all[i + 1] == rest[i] && all[j + 1] == rest[j];
      }
    }
    if x.rowLabel !in Labels(rest) && DistinctLabels(rest) {
      forall i, j | 0 <= i < j < |all| ensures all[i].rowLabel != all[j].rowLabel {
        if i == 0 {
          assert all[j] in rest;
        } else {
          assert all[i] == rest[i - 1] && all[j] == rest[j - 1];
        }
      }
    }
  }

  lemma DistinctPrefix(hits: seq<Hit>, h: Hit)
    requires DistinctLabels(hits + [h])
    ensures DistinctLabels(hits)
    ensures h.rowLabel !in Labels(hits)
  {
    var all := hits + [h];
    forall i, j | 0 <= i < j < |hits| ensures hits[i].rowLabel != hits[j].rowLabel {
      assert all[i] == hits[i] && all[j] == hits[j];
    }
    forall y | y in hits ensures y.rowLabel != h.rowLabel {
      var j :| 0 <= j < |hits| && hits[j] == y;
      assert all[j] == y && all[|hits|] == h;
    }
  }

  /** `d[h.rowLabel] = h` on an insertion-ordered dict held as a list of
      entries: an existing key keeps its place and takes the new value, a new
      key goes at the end. */
  function DictPut(d: seq<Hit>, h: Hit): (r: seq<Hit>)
    ensures Labels(r) == Labels(d) + {h.rowLabel}
    ensures DistinctLabels(d) ==> DistinctLabels(r)
    ensures h.rowLabel !in Labels(d) ==> r == d + [h]
    ensures DistinctLabels(d) && h.rowLabel in Labels(d) ==>
              |r| == |d| && forall i :: 0 <= i < |d| ==> r[i] == (if d[i].rowLabel == h.rowLabel then h else d[i])
  {
    if d == [] then [h]
    else
      LabelsCons(d[0], d[1..]);
      assert d == [d[0]] + d[1..];
      if d[0].rowLabel == h.rowLabel then
        LabelsCons(h, d[1..]);
        DistinctCons(d[0], d[1..]);
        DistinctCons(h, d[1..]);
        PutAtHead(d, h);
        [h] + d[1..]
      else
        var rest := DictPut(d[1..], h);
        LabelsCons(d[0], rest);
        DistinctCons(d[0], d[1..]);
        DistinctCons(d[0], rest);
        PutBehindHead(d, h, rest);
        AppendBehindHead(d, h, rest);
        [d[0]] + rest
  }

  lemma PutAtHead(d: seq<Hit>, h: Hit)
    requires d != [] && d[0].rowLabel == h.rowLabel
    ensures DistinctLabels(d) ==>
              forall i :: 0 <= i < |d| ==> ([h] + d[1..])[i] == (if d[i].rowLabel == h.rowLabel then h else d[i])
  {
    if DistinctLabels(d) {
      forall i | 0 <= i < |d|
        ensures ([h] + d[1..])[i] == (if d[i].rowLabel == h.rowLabel then h else d[i])
      {
        if i > 0 {
          assert d[0].rowLabel != d[i].rowLabel;
        }
      }
    }
  }

  lemma AppendBehindHead(d: seq<Hit>, h: Hit, rest: seq<Hit>)
    requires d != []
    requires h.rowLabel !in Labels(d[1..]) ==> rest == d[1..] + [h]
    ensures h.rowLabel !in Labels(d) ==> [d[0]] + rest == d + [h]
  {
    LabelsCons(d[0], d[1..]);
    assert d == [d[0]] + d[1..];
  }

  lemma PutBehindHead(d: seq<Hit>, h: Hit, rest: seq<Hit>)
    requires d != [] && d[0].rowLabel != h.rowLabel
    requires DistinctLabels(d) && h.rowLabel in Labels(d) ==>
               |rest| == |d| - 1 &&
               forall i :: 0 <= i < |d| - 1 ==>
                 rest[i] == (if d[1..][i].rowLabel == h.rowLabel then h else d[1..][i])
    ensures DistinctLabels(d) && h.rowLabel in Labels(d) ==>
              |[d[0]] + rest| == |d| &&
              forall i :: 0 <= i < |d| ==> ([d[0]] + rest)[i] == (if d[i].rowLabel == h.rowLabel then h else d[i])
  {
    if DistinctLabels(d) && h.rowLabel in Labels(d) {
      forall i | 0 <= i < |d|
        ensures ([d[0]] + rest)[i] == (if d[i].rowLabel == h.rowLabel then h else d[i])
      {
        if i > 0 {
          assert d[1..][i - 1] == d[i];
        }
      }
    }
  }

  /** `similar_movies.to_dict()` iterated key by key, as the comprehension
      building `response_movies` does: one entry per distinct index label,
      holding the last row with that label (`ToDictKeepsLastRow`); a result
      without repeated labels comes back unchanged. */
  function ToDict(hits: seq<Hit>): (d: seq<Hit>)
    ensures DistinctLabels(d)
    ensures Labels(d) == Labels(hits)
    ensures DistinctLabels(hits) ==> d == hits
  {
    if hits == [] then []
    else
      var init, last := hits[..|hits| - 1], hits[|hits| - 1];
      assert hits == init + [last];
      LabelsConcat(init, [last]);
      if DistinctLabels(hits) then
        DistinctPrefix(init, last);
        DictPut(ToDict(init), last)
      else
        DictPut(ToDict(init), last)
  }

  /** `h` is the last row of `hits` that carries its label. */
  predicate LastOfLabel(hits: seq<Hit>, h: Hit)
  {
    exists j :: 0 <= j < |hits| && hits[j] == h &&
      forall j2 :: j < j2 < |hits| ==> hits[j2].rowLabel != h.rowLabel
  }

  /** A later row with the same label overwrites an earlier one: every entry
      of the dict is the last row of the result with that label. */
  lemma {:induction false} ToDictKeepsLastRow(hits: seq<Hit>)
    ensures forall i :: 0 <= i < |ToDict(hits)| ==> LastOfLabel(hits, ToDict(hits)[i])
  {
    if hits != [] {
      var init, last := hits[..|hits| - 1], hits[|hits| - 1];
      assert hits == init + [last];
      ToDictKeepsLastRow(init);
      var before := ToDict(init);
      var d := ToDict(hits);
      assert d == DictPut(before, last);
      forall i | 0 <= i < |d| ensures LastOfLabel(hits, d[i]) {
        if d[i] == last {
          assert hits[|hits| - 1] == d[i];
        } else {
          if last.rowLabel !in Labels(before) {
            assert d[i] in before;
          }
          assert i < |before| && before[i] == d[i] && d[i].rowLabel != last.rowLabel;
          LastOfLabelExtend(init, last, d[i]);
        }
      }
    }
  }

  /** Appending a row with another label keeps `h` the last of its label. */
  lemma LastOfLabelExtend(hits: seq<Hit>, last: Hit, h: Hit)
    requires LastOfLabel(hits, h) && h.rowLabel != last.rowLabel
    ensures LastOfLabel(hits + [last], h)
  {
    var all := hits + [last];
    var j :| 0 <= j < |hits| && hits[j] == h &&
             forall j2 :: j < j2 < |hits| ==> hits[j2].rowLabel != h.rowLabel;
    forall j2 | j < j2 < |all| ensures all[j2].rowLabel != h.rowLabel {
      if j2 < |hits| {
        assert all[j2] == hits[j2];
      }
    }
    assert all[j] == h;
  }

  /** One film as the reply shows it. */
  function Block(m: Movie): string
  {
    "\U{1F3AC} " + m.title + " (" + m.year + ")\n" + m.description + "\n" + Rule
  }

  function Blocks(movies: seq<Movie>): seq<string>
  {
    seq(|movies|, i requires 0 <= i < |movies| => Block(movies[i]))
  }

  function Movies(hits: seq<Hit>): seq<Movie>
  {
    seq(|hits|, i requires 0 <= i < |hits| => hits[i].movie)
  }

  /** The message sent for a search result. */
  function ReplyText(found: seq<Hit>): string
  {
    if found == [] then NotFound
    else Header + Join(BlockSeparator, Blocks(Movies(ToDict(found))))
  }

  /** The whole handler for one query: search with the default of five
      recommendations, then build the reply. */
  function HandleUserQuery(rows: seq<Movie>, scoring: Scoring): string
    requires WellFormed(scoring)
  {
    ReplyText(FindSimilarMovies(rows, scoring, MaxRecommendations))
  }

  /** The "not found" message is sent exactly when the search result is
      empty: any non-empty result starts with the header instead. */
  lemma NotFoundExactlyWhenEmpty(found: seq<Hit>)
    ensures ReplyText(found) == NotFound <==> found == []
    ensures found != [] ==> Header <= ReplyText(found)
  {
    if found != [] {
      var r := ReplyText(found);
      assert r[0] == Header[0];
      assert NotFound[0] != Header[0];
    }
  }

  /** For a result without repeated labels (every result of the search, by
      `SearchRowsDistinct`) the reply is the header followed by one block per
      result row, in result order, separated by blank lines. */
  lemma ReplyLayout(found: seq<Hit>)
    requires found != [] && DistinctLabels(found)
    ensures ReplyText(found) == Header + Join(BlockSeparator, Blocks(Movies(found)))
  {
  }

  /** One more result row adds exactly one block, at the end, after a blank
      line. */
  lemma ReplyAppend(found: seq<Hit>, h: Hit)
    requires found != [] && DistinctLabels(found + [h])
    ensures ReplyText(found + [h]) == ReplyText(found) + BlockSeparator + Block(h.movie)
  {
    DistinctPrefix(found, h);
    ReplyLayout(found);
    ReplyLayout(found + [h]);
    JoinedBlocksAppend(found, h);
    var joined := Join(BlockSeparator, Blocks(Movies(found)));
    Reassociate(Header, joined, BlockSeparator, Block(h.movie));
  }

  /** Regrouping a concatenation, stated over plain strings so that the
      literal header and separator stay out of the proof context. */
  lemma Reassociate(a: string, b: string, c: string, d: string)
    ensures a + (b + c + d) == (a + b) + c + d
  {
  }

  lemma JoinedBlocksAppend(found: seq<Hit>, h: Hit)
    requires found != []
    ensures Join(BlockSeparator, Blocks(Movies(found + [h])))
         == Join(BlockSeparator, Blocks(Movies(found))) + BlockSeparator + Block(h.movie)
  {
    BlocksAppend(found, h);
    JoinAppend(BlockSeparator, Blocks(Movies(found)), [Block(h.movie)]);
  }

  lemma BlocksAppend(found: seq<Hit>, h: Hit)
    ensures Blocks(Movies(found + [h])) == Blocks(Movies(found)) + [Block(h.movie)]
  {
    assert Movies(found + [h]) == Movies(found) + [h.movie];
  }

  /** The table rows at the given positions, in that order. */
  function MoviesAt(rows: seq<Movie>, positions: seq<nat>): seq<Movie>
    requires forall i :: 0 <= i < |positions| ==> positions[i] < |rows|
  {
    seq(|positions|, i requires 0 <= i < |positions| => rows[positions[i]])
  }

  /** End to end: when scoring raised, the user is told nothing was found;
      otherwise, for a non-empty table, the reply lists the films at the
      min(5, n) best positions, best first, one block each. */
  lemma QueryReply(rows: seq<Movie>, scoring: Scoring)
    requires WellFormed(scoring)
    ensures scoring.Raised? ==> HandleUserQuery(rows, scoring) == NotFound
    ensures scoring.Scored? && |scoring.scores| == |rows| && rows != [] ==>
              var top := TopIndices(scoring.ascending, MaxRecommendations);
              && |top| == Min(MaxRecommendations, |rows|)
              && (forall i :: 0 <= i < |top| ==> top[i] < |rows|)
              && HandleUserQuery(rows, scoring) == Header + Join(BlockSeparator, Blocks(MoviesAt(rows, top)))
  {
    if scoring.Scored? && |scoring.scores| == |rows| && rows != [] {
      var found := FindSimilarMovies(rows, scoring, MaxRecommendations);
      SearchCount(rows, scoring, MaxRecommendations);
      SearchRowsDistinct(rows, scoring, MaxRecommendations);
      FoundMovies(rows, scoring, MaxRecommendations);
      ReplyLayout(found);
    }
  }

  lemma FoundMovies(rows: seq<Movie>, scoring: Scoring, k: int)
    requires WellFormed(scoring) && scoring.Scored? && |scoring.scores| == |rows|
    ensures var top := TopIndices(scoring.ascending, k);
            && (forall i :: 0 <= i < |top| ==> top[i] < |rows|)
            && Movies(FindSimilarMovies(rows, scoring, k)) == MoviesAt(rows, top)
  {
    SearchRowsDistinct(rows, scoring, k);
  }
}
