/**
 * The table show_results displays: scores rescaled to a percentage of the
 * best score of the ranking, and, for a proximity query, the centre code
 * scored on its own and put in front when the ranking does not hold it.
 */
module Results {
  import opened Wrappers
  import opened Stats
  import opened MarketData
  import opened Scoring
  import opened Ranking
  import opened Dedup

  function Scores(s: seq<Scored>): (col: seq<Option<real>>)
    ensures |col| == |s| && forall i :: 0 <= i < |s| ==> col[i] == s[i].score
  {
    seq(|s|, i requires 0 <= i < |s| => s[i].score)
  }

  /** investment_score.max(): the best present score (absent when none is present). */
  function MaxScore(s: seq<Scored>): (m: Option<real>)
    ensures m.None? <==> forall i :: 0 <= i < |s| ==> s[i].score.None?
    ensures m.Some? ==> exists i :: 0 <= i < |s| && s[i].score == m
    ensures m.Some? ==> forall i :: 0 <= i < |s| && s[i].score.Some? ==> s[i].score.value <= m.value
  {
    var scores := Scores(s);
    assert forall i :: 0 <= i < |s| ==> scores[i] == s[i].score;
    ColumnMax(scores)
  }

  /**
   * score / max * 100; absent when either is absent or the maximum is 0
   * (where pandas produces NaN or an infinity). The maximum itself maps to
   * 100, and a score between 0 and a positive maximum to a value between 0
   * and 100.
   */
  function Percent(score: Option<real>, maxScore: Option<real>): (p: Option<real>)
    ensures p.Some? <==> score.Some? && maxScore.Some? && maxScore.value != 0.0
    ensures score.Some? && score == maxScore && score.value != 0.0 ==> p == Some(100.0)
    ensures score.Some? && maxScore.Some? && 0.0 <= score.value <= maxScore.value && maxScore.value > 0.0 ==>
      p.Some? && 0.0 <= p.value <= 100.0
  {
    if score.Some? && maxScore.Some? && maxScore.value != 0.0 then
      assert score.value / maxScore.value * maxScore.value == score.value;
      assert maxScore.value / maxScore.value == 1.0;
      Some(score.value / maxScore.value * 100.0)
    else None
  }

  /** Every row's score replaced by its percentage of maxScore; nothing else changes. */
  function ToPercent(s: seq<Scored>, maxScore: Option<real>): (r: seq<Scored>)
    ensures |r| == |s|
    ensures forall i :: 0 <= i < |s| ==> r[i].rec == s[i].rec && r[i].score == Percent(s[i].score, maxScore)
  {
    seq(|s|, i requires 0 <= i < |s| => Scored(s[i].rec, Percent(s[i].score, maxScore)))
  }

  function Zipcodes(s: seq<Scored>): (zs: seq<string>)
    ensures |zs| == |s| && forall i :: 0 <= i < |s| ==> zs[i] == s[i].rec.zipcode
  {
    seq(|s|, i requires 0 <= i < |s| => s[i].rec.zipcode)
  }

  /**
   * The priced rows stored for the highlighted code, filled and scored as a
   * batch of their own, each score rescaled by the given maximum.
   */
  function PinnedRows(store: seq<Record>, zip: string, maxScore: Option<real>): (rows: seq<Scored>)
    ensures var own := LoadRealData(store, [zip]);
      && |rows| == |own|
      && forall i :: 0 <= i < |rows| ==>
           && rows[i].rec == Filled(own)[i] && rows[i].rec.zipcode == zip
           && rows[i].score == Percent(ComputeScores(own)[i].score, maxScore)
  {
    var own := LoadRealData(store, [zip]);
    LoadedZipcodes(store, zip);
    ToPercent(ComputeScores(own), maxScore)
  }

  lemma LoadedZipcodes(store: seq<Record>, zip: string)
    ensures var own := LoadRealData(store, [zip]);
      forall i :: 0 <= i < |own| ==> own[i].zipcode == zip
  {
    var own := LoadRealData(store, [zip]);
    forall i | 0 <= i < |own| ensures own[i].zipcode == zip {
      assert own[i] in own;
    }
  }

  /**
   * The centre is added when a highlight code is given (non-empty), is not
   * among the ranked codes, and has stored rows (rows with a price).
   */
  predicate PinApplies(top: seq<Scored>, highlight: Option<string>, store: seq<Record>)
    ensures PinApplies(top, highlight, store) <==>
      && highlight.Some? && highlight.value != ""
      && (forall i :: 0 <= i < |top| ==> top[i].rec.zipcode != highlight.value)
      && (exists k :: 0 <= k < |store| && store[k].zipcode == highlight.value && store[k].medianPrice.Some?)
  {
    && highlight.Some? && highlight.value != ""
    && highlight.value !in Zipcodes(top)
    && (LoadRealDataEmpty(store, [highlight.value]);
        LoadRealData(store, [highlight.value]) != [])
  }

  /** show_results without the drawing: percentages, the pinned centre, drop_duplicates. */
  function ShowResults(top: seq<Scored>, highlight: Option<string>, store: seq<Record>): (shown: seq<Scored>)
    ensures DistinctKeys(shown, ScoredZipcode)
    ensures !PinApplies(top, highlight, store) ==> |shown| <= |top|
  {
    var maxScore := MaxScore(top);
    var ranked := ToPercent(top, maxScore);
    var all := if PinApplies(top, highlight, store)
      then PinnedRows(store, highlight.value, maxScore) + ranked
      else ranked;
    DropDuplicatesFromKeys(all, ScoredZipcode, {});
    DropDuplicates(all, ScoredZipcode)
  }

  /** Rescaling by a positive maximum keeps the order of any two scores, in both directions. */
  lemma PercentPreservesOrder(a: Option<real>, b: Option<real>, m: real)
    requires m > 0.0
    ensures ScoreGe(Percent(a, Some(m)), Percent(b, Some(m))) <==> ScoreGe(a, b)
  {
    if a.Some? && b.Some? {
      PercentMonotone(a.value, b.value, m);
    }
  }

  lemma PercentMonotone(x: real, y: real, m: real)
    requires m > 0.0
    ensures x / m * 100.0 >= y / m * 100.0 <==> x >= y
  {
    assert x / m * m == x && y / m * m == y;
    if x >= y {
      assert x / m >= y / m;
    } else {
      assert x / m < y / m;
    }
  }

  /** The first row of a score-sorted ranking holds its best score. */
  lemma TopHoldsMax(top: seq<Scored>)
    requires top != [] && SortedByScore(top) && MaxScore(top).Some?
    ensures top[0].score == MaxScore(top)
  {
    var m := MaxScore(top).value;
    var scores := Scores(top);
    var k :| 0 <= k < |scores| && scores[k] == Some(m);
    if k > 0 {
      assert ScoreGe(top[0].score, top[k].score);
    }
    assert scores[0] == top[0].score;
  }

  /** Whenever the best score is present and not zero, the first row of a sorted ranking shows exactly 100. */
  lemma TopShowsHundred(top: seq<Scored>)
    requires top != [] && SortedByScore(top)
    requires MaxScore(top).Some? && MaxScore(top).value != 0.0
    ensures ToPercent(top, MaxScore(top))[0].score == Some(100.0)
  {
    var m := MaxScore(top).value;
    TopHoldsMax(top);
    assert m / m * 100.0 == 100.0;
  }

  /**
   * With a positive best score, the ranking rescaled to percentages keeps its
   * order, its first row shows exactly 100, and no row shows more than 100.
   */
  lemma PercentOfRanking(top: seq<Scored>)
    requires top != [] && SortedByScore(top)
    requires MaxScore(top).Some? && MaxScore(top).value > 0.0
    ensures var shown := ToPercent(top, MaxScore(top));
      && SortedByScore(shown)
      && shown[0].score == Some(100.0)
      && forall i :: 0 <= i < |shown| && shown[i].score.Some? ==> shown[i].score.value <= 100.0
  {
    var m := MaxScore(top).value;
    var shown := ToPercent(top, MaxScore(top));
    forall i, j | 0 <= i < j < |shown| ensures ScoreGe(shown[i].score, shown[j].score) {
      PercentPreservesOrder(top[i].score, top[j].score, m);
    }
    var scores := Scores(top);
    TopHoldsMax(top);
    assert m / m * 100.0 == 100.0;
    forall i | 0 <= i < |shown| && shown[i].score.Some?
      ensures shown[i].score.value <= 100.0
    {
      assert scores[i] == top[i].score;
      PercentMonotone(m, top[i].score.value, m);
    }
  }

  /** Rescaling keeps the zipcodes, so distinct zipcodes stay distinct. */
  lemma ToPercentDistinct(top: seq<Scored>, maxScore: Option<real>)
    requires DistinctKeys(top, ScoredZipcode)
    ensures DistinctKeys(ToPercent(top, maxScore), ScoredZipcode)
  {
    var ranked := ToPercent(top, maxScore);
    forall i, j | 0 <= i < j < |ranked| ensures ScoredZipcode(ranked[i]) != ScoredZipcode(ranked[j]) {
      assert ScoredZipcode(top[i]) != ScoredZipcode(top[j]);
    }
  }

  /** When the centre is pinned it has at least one scored row. */
  lemma PinnedRowsPresent(top: seq<Scored>, highlight: Option<string>, store: seq<Record>, maxScore: Option<real>)
    requires PinApplies(top, highlight, store)
    ensures |PinnedRows(store, highlight.value, maxScore)| > 0
  {
    var own := LoadRealData(store, [highlight.value]);
    assert |PinnedRows(store, highlight.value, maxScore)| == |ComputeScores(own)| == |own|;
  }

  /** Putting one row with a new zipcode in front keeps zipcodes distinct. */
  lemma ConsDistinct(x: Scored, ranked: seq<Scored>)
    requires DistinctKeys(ranked, ScoredZipcode)
    requires forall i :: 0 <= i < |ranked| ==> ScoredZipcode(ranked[i]) != ScoredZipcode(x)
    ensures DistinctKeys([x] + ranked, ScoredZipcode)
  {
    var shown := [x] + ranked;
    forall i, j | 0 <= i < j < |shown| ensures ScoredZipcode(shown[i]) != ScoredZipcode(shown[j]) {
      assert shown[j] == ranked[j - 1];
      if i > 0 {
        assert shown[i] == ranked[i - 1];
      }
    }
  }

  lemma ShowResultsPinned(top: seq<Scored>, highlight: Option<string>, store: seq<Record>)
    requires DistinctKeys(top, ScoredZipcode)
    requires PinApplies(top, highlight, store)
    ensures var pinned := PinnedRows(store, highlight.value, MaxScore(top));
      && |pinned| > 0
      && ShowResults(top, highlight, store) == [pinned[0]] + ToPercent(top, MaxScore(top))
  {
    var h := highlight.value;
    var maxScore := MaxScore(top);
    var ranked := ToPercent(top, maxScore);
    var pinned := PinnedRows(store, h, maxScore);
    PinnedRowsPresent(top, highlight, store, maxScore);
    ToPercentDistinct(top, maxScore);
    forall i | 0 <= i < |ranked| ensures ScoredZipcode(ranked[i]) != h {
      assert Zipcodes(top)[i] == top[i].rec.zipcode;
    }
    DropDuplicatesOfPrefix(pinned, ranked, ScoredZipcode, h);
  }

  /**
   * What show_results displays, given a ranking with distinct zipcodes: when
   * the centre is pinned, its first stored row, scored on its own and
   * rescaled by the ranking's best score, followed by the ranking; otherwise
   * the ranking alone. The ranking's percentages are the same either way,
   * the zipcodes stay distinct and at most one row is added.
   */
  lemma ShowResultsSpec(top: seq<Scored>, highlight: Option<string>, store: seq<Record>)
    requires DistinctKeys(top, ScoredZipcode)
    ensures var shown := ShowResults(top, highlight, store);
      var ranked := ToPercent(top, MaxScore(top));
      && (PinApplies(top, highlight, store) ==>
            && |PinnedRows(store, highlight.value, MaxScore(top))| > 0
            && shown == [PinnedRows(store, highlight.value, MaxScore(top))[0]] + ranked
            && shown[0].rec.zipcode == highlight.value
            && var own := LoadRealData(store, [highlight.value]);
               shown[0] == Scored(Filled(own)[0], Percent(ComputeScores(own)[0].score, MaxScore(top))))
      && (!PinApplies(top, highlight, store) ==> shown == ranked)
      && |shown| <= |top| + 1
      && DistinctKeys(shown, ScoredZipcode)
  {
    var maxScore := MaxScore(top);
    var ranked := ToPercent(top, maxScore);
    ToPercentDistinct(top, maxScore);
    if PinApplies(top, highlight, store) {
      ShowResultsPinned(top, highlight, store);
      var pinned := PinnedRows(store, highlight.value, maxScore);
      forall i | 0 <= i < |ranked| ensures ScoredZipcode(ranked[i]) != ScoredZipcode(pinned[0]) {
        assert Zipcodes(top)[i] == top[i].rec.zipcode;
      }
      ConsDistinct(pinned[0], ranked);
    } else {
      DropDuplicatesOfDistinct(ranked, ScoredZipcode);
    }
  }

  /** A highlight code already in the ranking changes nothing. */
  lemma ShowResultsCentreAlreadyRanked(top: seq<Scored>, zip: string, store: seq<Record>)
    requires DistinctKeys(top, ScoredZipcode)
    requires exists i :: 0 <= i < |top| && top[i].rec.zipcode == zip
    ensures ShowResults(top, Some(zip), store) == ShowResults(top, None, store) == ToPercent(top, MaxScore(top))
  {
    var i :| 0 <= i < |top| && top[i].rec.zipcode == zip;
    assert Zipcodes(top)[i] == zip;
    ShowResultsSpec(top, Some(zip), store);
    ShowResultsSpec(top, None, store);
  }

  /**
   * The pinned row is the first priced row stored for the centre, filled and
   * scored within the batch of all priced rows stored for the centre, and
   * rescaled by the best score of the ranking shown below it.
   */
  lemma PinnedRowOrigin(top: seq<Scored>, h: string, store: seq<Record>)
    requires DistinctKeys(top, ScoredZipcode) && PinApplies(top, Some(h), store)
    ensures var own := LoadRealData(store, [h]);
      && |own| > 0
      && ShowResults(top, Some(h), store)[0] == Scored(Filled(own)[0], Percent(ComputeScores(own)[0].score, MaxScore(top)))
      && exists k ::
           && 0 <= k < |store| && own[0] == store[k]
           && store[k].zipcode == h && store[k].medianPrice.Some?
           && forall m :: 0 <= m < k ==> store[m].zipcode != h || store[m].medianPrice.None?
  {
    ShowResultsSpec(top, Some(h), store);
    LoadRealDataFirst(store, [h]);
  }
}
