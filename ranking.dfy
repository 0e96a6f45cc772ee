/**
 * Ranking of scored rows: drop_duplicates on the zipcode (first row kept),
 * sort_values by investment_score descending with absent scores last, and
 * head(5). pandas' default sort is not stable, so the lemmas here hold for
 * every ordering of the scored rows that is sorted by score; SortByScore is
 * one such ordering and no lemma depends on how it orders equal scores.
 */
module Ranking {
  import opened Wrappers
  import opened MarketData
  import opened Scoring
  import opened Dedup

  /** How many rows a ranking keeps. */
  const TopK: nat := 5

  /**
   * a may come before b in a descending sort with absent scores (NaN) last:
   * a present score before any absent one, and present scores from high to low.
   */
  predicate ScoreGe(a: Option<real>, b: Option<real>) {
    if a.Some? then b.None? || a.value >= b.value else b.None?
  }

  lemma ScoreGeTotalPreorder(a: Option<real>, b: Option<real>, c: Option<real>)
    ensures ScoreGe(a, a)
    ensures ScoreGe(a, b) || ScoreGe(b, a)
    ensures ScoreGe(a, b) && ScoreGe(b, c) ==> ScoreGe(a, c)
  {
  }

  ghost predicate SortedByScore(s: seq<Scored>) {
    forall i, j :: 0 <= i < j < |s| ==> ScoreGe(s[i].score, s[j].score)
  }

  function InsertByScore(x: Scored, s: seq<Scored>): (r: seq<Scored>)
    requires SortedByScore(s)
    ensures SortedByScore(r)
    ensures multiset(r) == multiset(s) + multiset{x}
    ensures r[0] == x || (s != [] && r[0] == s[0])
  {
    if s == [] || ScoreGe(x.score, s[0].score) then [x] + s
    else
      var tail := s[1..];
      var rest := InsertByScore(x, tail);
      assert s == [s[0]] + tail;
      assert ScoreGe(s[0].score, rest[0].score);
      [s[0]] + rest
  }

  /** One descending ordering by score (absent scores last). */
  function SortByScore(s: seq<Scored>): (r: seq<Scored>)
    ensures SortedByScore(r)
    ensures multiset(r) == multiset(s)
  {
    if s == [] then []
    else
      assert s == [s[0]] + s[1..];
      InsertByScore(s[0], SortByScore(s[1..]))
  }

  /** head(k): the first k rows, or all of them when there are fewer. */
  function Head(s: seq<Scored>, k: nat): (r: seq<Scored>)
    ensures |r| == if |s| < k then |s| else k
    ensures r == s[..|r|]
  {
    if |s| < k then s else s[..k]
  }

  /** drop_duplicates('zipcode'), then compute_scores, sort descending, head(5). */
  function TopPicks(data: seq<Record>): (top: seq<Scored>)
    ensures |top| <= TopK
    ensures SortedByScore(top)
  {
    Head(SortByScore(ComputeScores(DropDuplicates(data, ZipcodeOf))), TopK)
  }

  /**
   * Taking the first five rows of ANY score-sorted reordering of rows with
   * distinct zipcodes gives at most five rows with distinct zipcodes, in
   * non-increasing score order, all drawn from the input, and none scoring
   * below a row that was left out.
   */
  lemma TopOfSorted(scored: seq<Scored>, sorted: seq<Scored>)
    requires multiset(sorted) == multiset(scored) && SortedByScore(sorted)
    requires DistinctKeys(scored, ScoredZipcode)
    ensures var top := Head(sorted, TopK);
      && |top| == (if |scored| < TopK then |scored| else TopK)
      && DistinctKeys(top, ScoredZipcode)
      && SortedByScore(top)
      && (forall x :: x in top ==> x in scored)
      && (forall x, y :: x in top && y in scored && y !in top ==> ScoreGe(x.score, y.score))
  {
    var top := Head(sorted, TopK);
    assert |sorted| == |multiset(sorted)| == |scored|;
    DistinctKeysPermutation(scored, sorted, ScoredZipcode);
    forall x | x in top ensures x in scored {
      assert x in multiset(sorted);
    }
    forall x, y | x in top && y in scored && y !in top
      ensures ScoreGe(x.score, y.score)
    {
      assert y in multiset(sorted);
      var k :| 0 <= k < |sorted| && sorted[k] == y;
      var a :| 0 <= a < |top| && top[a] == x;
      assert k >= |top|;
      assert sorted[a] == x;
    }
  }

  /**
   * The ranking of a batch: at most five rows, distinct zipcodes, scores
   * non-increasing, every row a scored row of the deduplicated batch, and
   * every row left out scoring no higher than every row kept.
   */
  lemma TopPicksSpec(data: seq<Record>)
    ensures var scored := ComputeScores(DropDuplicates(data, ZipcodeOf));
      var top := TopPicks(data);
      && |top| <= TopK
      && |top| == (if |DropDuplicates(data, ZipcodeOf)| < TopK then |DropDuplicates(data, ZipcodeOf)| else TopK)
      && DistinctKeys(top, ScoredZipcode)
      && SortedByScore(top)
      && (forall x :: x in top ==> x in scored)
      && (forall x, y :: x in top && y in scored && y !in top ==> ScoreGe(x.score, y.score))
  {
    var unique := DropDuplicates(data, ZipcodeOf);
    var scored := ComputeScores(unique);
    DropDuplicatesSpec(data, ZipcodeOf);
    assert DistinctKeys(scored, ScoredZipcode) by {
      forall i, j | 0 <= i < j < |scored| ensures ScoredZipcode(scored[i]) != ScoredZipcode(scored[j]) {
        assert ZipcodeOf(unique[i]) != ZipcodeOf(unique[j]);
      }
    }
    TopOfSorted(scored, SortByScore(scored));
  }

  /** A non-empty ranking starts with a row scoring no lower than any row of the batch. */
  lemma TopPicksFirstIsBest(data: seq<Record>)
    requires TopPicks(data) != []
    ensures forall y :: y in ComputeScores(DropDuplicates(data, ZipcodeOf)) ==> ScoreGe(TopPicks(data)[0].score, y.score)
  {
    TopPicksSpec(data);
    var top := TopPicks(data);
    var scored := ComputeScores(DropDuplicates(data, ZipcodeOf));
    forall y | y in scored ensures ScoreGe(top[0].score, y.score) {
      if y in top {
        var k :| 0 <= k < |top| && top[k] == y;
        ScoreGeTotalPreorder(top[0].score, y.score, y.score);
      }
    }
  }

  /** Every ranked row carries the zipcode of a row of the batch. */
  lemma TopPicksFromData(data: seq<Record>)
    ensures forall x :: x in TopPicks(data) ==> exists r :: r in data && r.zipcode == x.rec.zipcode
  {
    var unique := DropDuplicates(data, ZipcodeOf);
    var scored := ComputeScores(unique);
    var sorted := SortByScore(scored);
    forall x | x in TopPicks(data) ensures exists r :: r in data && r.zipcode == x.rec.zipcode {
      assert x in sorted;
      assert x in multiset(scored);
      var i :| 0 <= i < |scored| && scored[i] == x;
      DropDuplicatesKeepsRow(data, ZipcodeOf, i);
      assert unique[i] in data && unique[i].zipcode == x.rec.zipcode;
    }
  }
}
