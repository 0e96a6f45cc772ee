/**
 * compute_scores: batch-relative filling of missing values and the weighted
 * investment score. Medians and maxima are taken over the batch at hand, so
 * scores compare only within one batch. A score that pandas would compute as
 * NaN or an infinity (an absent operand, a division by zero) is absent here.
 */
module Scoring {
  import opened Wrappers
  import opened Stats
  import opened MarketData

  /** The numeric columns the score reads. */
  datatype Field = Inventory | HomesSold | Dom | Price

  function Get(r: Record, f: Field): Option<real> {
    match f
    case Inventory => r.inventory
    case HomesSold => r.homesSold
    case Dom => r.dom
    case Price => r.medianPrice
  }

  function Column(batch: seq<Record>, f: Field): (col: seq<Option<real>>)
    ensures |col| == |batch| && forall i :: 0 <= i < |batch| ==> col[i] == Get(batch[i], f)
  {
    seq(|batch|, i requires 0 <= i < |batch| => Get(batch[i], f))
  }

  /** The fill for absent inventory: the median of the present inventory values. */
  function InventoryFill(batch: seq<Record>): Option<real> {
    Median(Present(Column(batch, Inventory)))
  }

  /** The fill for absent days on market: the median of the present values. */
  function DomFill(batch: seq<Record>): Option<real> {
    Median(Present(Column(batch, Dom)))
  }

  function FillRow(r: Record, inventoryFill: Option<real>, domFill: Option<real>): Record {
    r.(inventory := FillCell(r.inventory, inventoryFill),
       homesSold := FillCell(r.homesSold, Some(0.0)),
       dom := FillCell(r.dom, domFill))
  }

  /** Inventory and days on market are filled with the batch median, homes sold with 0. */
  function Filled(batch: seq<Record>): (rows: seq<Record>)
    ensures |rows| == |batch|
    ensures forall i :: 0 <= i < |batch| ==> rows[i] == FillRow(batch[i], InventoryFill(batch), DomFill(batch))
  {
    var inventoryFill, domFill := InventoryFill(batch), DomFill(batch);
    seq(|batch|, i requires 0 <= i < |batch| => FillRow(batch[i], inventoryFill, domFill))
  }

  /** A row with its investment_score column. */
  datatype Scored = Scored(rec: Record, score: Option<real>)

  function ScoredZipcode(s: Scored): string { s.rec.zipcode }

  /**
   * 1 - x / max x, the days-on-market score and the price score alike:
   * faster-selling and cheaper codes score higher. Absent (NaN in pandas)
   * exactly when an operand is absent or the maximum is 0; within [0, 1] for
   * a value between 0 and a positive maximum; 0 for the code at the maximum.
   */
  function RatioScore(x: Option<real>, m: Option<real>): (r: Option<real>)
    ensures r.Some? <==> x.Some? && m.Some? && m.value != 0.0
    ensures x.Some? && m.Some? && 0.0 <= x.value <= m.value && m.value > 0.0 ==> InUnit(r)
    ensures x.Some? && x == m && x.value != 0.0 ==> r == Some(0.0)
  {
    if x.Some? && m.Some? && m.value != 0.0 then
      ScoreOfFraction(x.value, m.value);
      Some(1.0 - x.value / m.value)
    else None
  }

  /**
   * homes sold / (inventory + 1): the sell-through rate. Absent exactly when
   * an operand is absent or the inventory is -1; never negative on
   * non-negative data, and 0 when nothing sold.
   */
  function DemandScore(homesSold: Option<real>, inventory: Option<real>): (r: Option<real>)
    ensures r.Some? <==> homesSold.Some? && inventory.Some? && inventory.value != -1.0
    ensures homesSold.Some? && inventory.Some? && homesSold.value >= 0.0 && inventory.value >= 0.0 ==>
      r.Some? && r.value >= 0.0
    ensures homesSold == Some(0.0) && r.Some? ==> r.value == 0.0
  {
    if homesSold.Some? && inventory.Some? && inventory.value + 1.0 != 0.0 then
      assert 0.0 / (inventory.value + 1.0) * (inventory.value + 1.0) == 0.0;
      Some(homesSold.value / (inventory.value + 1.0))
    else None
  }

  /**
   * 0.4 days-on-market score + 0.4 demand score + 0.2 price score: present exactly
   * when all three are, and a weighted mean, so it stays in [0, 1] when
   * all three do.
   */
  function Composite(dom: Option<real>, demand: Option<real>, price: Option<real>): (r: Option<real>)
    ensures r.Some? <==> dom.Some? && demand.Some? && price.Some?
    ensures InUnit(dom) && InUnit(demand) && InUnit(price) ==> InUnit(r)
  {
    if dom.Some? && demand.Some? && price.Some?
    then Some(0.4 * dom.value + 0.4 * demand.value + 0.2 * price.value) else None
  }

  /**
   * The investment score of one row: present exactly when its days on
   * market, homes sold, inventory and price are present, the inventory is
   * not -1 and both maxima are present and non-zero.
   */
  function InvestmentScore(r: Record, maxDom: Option<real>, maxPrice: Option<real>): (score: Option<real>)
    ensures score.Some? <==>
      && r.dom.Some? && r.homesSold.Some? && r.inventory.Some? && r.medianPrice.Some?
      && r.inventory.value != -1.0
      && maxDom.Some? && maxDom.value != 0.0 && maxPrice.Some? && maxPrice.value != 0.0
  {
    Composite(RatioScore(r.dom, maxDom), DemandScore(r.homesSold, r.inventory), RatioScore(r.medianPrice, maxPrice))
  }

  /** 1 - x / m lies in [0, 1] for 0 <= x <= m, and is 0 at x = m. */
  lemma ScoreOfFraction(x: real, m: real)
    requires m != 0.0
    ensures 0.0 <= x <= m ==> 0.0 <= 1.0 - x / m <= 1.0
    ensures 1.0 - m / m == 0.0
  {
    assert x / m * m == x;
    assert m / m == 1.0;
  }

  /** compute_scores on a batch: fill, then score every row against the batch maxima. */
  function ComputeScores(batch: seq<Record>): (out: seq<Scored>)
    ensures |out| == |batch|
    ensures forall i :: 0 <= i < |batch| ==> out[i].rec.zipcode == batch[i].zipcode
    ensures forall i :: 0 <= i < |batch| ==> out[i] == Scored(Filled(batch)[i],
      InvestmentScore(Filled(batch)[i], ColumnMax(Column(Filled(batch), Dom)), ColumnMax(Column(Filled(batch), Price))))
  {
    var rows := Filled(batch);
    var maxDom := ColumnMax(Column(rows, Dom));
    var maxPrice := ColumnMax(Column(rows, Price));
    seq(|rows|, i requires 0 <= i < |rows| => Scored(rows[i], InvestmentScore(rows[i], maxDom, maxPrice)))
  }

  /**
   * Scoring keeps every row, in order, with its other columns; homes sold
   * becomes 0 where absent; inventory and days on market take the median of
   * the values present in the batch, and stay absent when none is present.
   */
  lemma ComputeScoresFills(batch: seq<Record>)
    ensures var out := ComputeScores(batch);
      var inventoryMedian := Median(Present(Column(batch, Inventory)));
      var domMedian := Median(Present(Column(batch, Dom)));
      forall i :: 0 <= i < |batch| ==>
        var r, s := batch[i], out[i].rec;
        && s.zipcode == r.zipcode && s.stateCode == r.stateCode
        && s.medianPrice == r.medianPrice && s.medianListPrice == r.medianListPrice
        && s.monthsSupply == r.monthsSupply
        && s.homesSold == (if r.homesSold.Some? then r.homesSold else Some(0.0))
        && s.inventory == (if r.inventory.Some? then r.inventory else inventoryMedian)
        && s.dom == (if r.dom.Some? then r.dom else domMedian)
        && (forall j :: 0 <= j < |batch| ==> batch[j].dom.None?) == (domMedian == None)
        && (forall j :: 0 <= j < |batch| ==> batch[j].inventory.None?) == (inventoryMedian == None)
  {
    DomFillPresent(batch);
    InventoryFillPresent(batch);
    forall i | 0 <= i < |batch|
      ensures ComputeScores(batch)[i].rec == Filled(batch)[i]
    {
      ScoredRow(batch, i);
      FilledKeepsRow(batch, i);
    }
  }

  /** After filling, a column is either complete or (when it had no value at all) entirely absent. */
  lemma FilledColumnsComplete(batch: seq<Record>)
    ensures forall i :: 0 <= i < |batch| ==> Filled(batch)[i].homesSold.Some?
    ensures (exists j :: 0 <= j < |batch| && batch[j].dom.Some?) ==>
      (forall i :: 0 <= i < |batch| ==> Filled(batch)[i].dom.Some?)
    ensures (forall j :: 0 <= j < |batch| ==> batch[j].dom.None?) ==>
      (forall i :: 0 <= i < |batch| ==> Filled(batch)[i].dom.None?)
    ensures (exists j :: 0 <= j < |batch| && batch[j].inventory.Some?) ==>
      (forall i :: 0 <= i < |batch| ==> Filled(batch)[i].inventory.Some?)
    ensures (forall j :: 0 <= j < |batch| ==> batch[j].inventory.None?) ==>
      (forall i :: 0 <= i < |batch| ==> Filled(batch)[i].inventory.None?)
  {
    var rows := Filled(batch);
    DomFillPresent(batch);
    InventoryFillPresent(batch);
    forall i | 0 <= i < |batch|
      ensures rows[i].homesSold.Some?
      ensures rows[i].dom.Some? <==> batch[i].dom.Some? || DomFill(batch).Some?
      ensures rows[i].inventory.Some? <==> batch[i].inventory.Some? || InventoryFill(batch).Some?
    {
      assert rows[i] == FillRow(batch[i], InventoryFill(batch), DomFill(batch));
    }
  }

  lemma DomFillPresent(batch: seq<Record>)
    ensures DomFill(batch).Some? <==> exists j :: 0 <= j < |batch| && batch[j].dom.Some?
  {
    var col := Column(batch, Dom);
    if j :| 0 <= j < |batch| && batch[j].dom.Some? {
      assert col[j].Some?;
    }
  }

  lemma InventoryFillPresent(batch: seq<Record>)
    ensures InventoryFill(batch).Some? <==> exists j :: 0 <= j < |batch| && batch[j].inventory.Some?
  {
    var col := Column(batch, Inventory);
    if j :| 0 <= j < |batch| && batch[j].inventory.Some? {
      assert col[j].Some?;
    }
  }

  /**
   * Filling with the median never raises a column maximum: the maxima the
   * score divides by are those of the present input values.
   */
  lemma FilledMaxima(batch: seq<Record>)
    ensures ColumnMax(Column(Filled(batch), Dom)) == ColumnMax(Column(batch, Dom))
    ensures ColumnMax(Column(Filled(batch), Price)) == ColumnMax(Column(batch, Price))
  {
    var rows := Filled(batch);
    forall i | 0 <= i < |batch|
      ensures Column(rows, Price)[i] == Column(batch, Price)[i]
      ensures Column(rows, Dom)[i] == FillColumn(Column(batch, Dom), DomFill(batch))[i]
    {
      FilledKeepsRow(batch, i);
    }
    assert Column(rows, Price) == Column(batch, Price);
    assert Column(rows, Dom) == FillColumn(Column(batch, Dom), DomFill(batch));
    FillMedianKeepsMax(Column(batch, Dom));
  }

  /** A median-filled value lies between the present values of its column. */
  lemma FilledWithinColumn(batch: seq<Record>, i: nat)
    requires i < |batch| && exists j :: 0 <= j < |batch| && batch[j].dom.Some?
    ensures Filled(batch)[i].dom.Some?
    ensures exists j :: 0 <= j < |batch| && batch[j].dom.Some? && batch[j].dom.value <= Filled(batch)[i].dom.value
  {
    var col := Column(batch, Dom);
    if batch[i].dom.None? {
      MedianWithinColumn(col);
    }
  }

  lemma InventoryFilledWithinColumn(batch: seq<Record>, i: nat)
    requires i < |batch| && exists j :: 0 <= j < |batch| && batch[j].inventory.Some?
    ensures Filled(batch)[i].inventory.Some?
    ensures exists j :: 0 <= j < |batch| && batch[j].inventory.Some? && batch[j].inventory.value <= Filled(batch)[i].inventory.value
  {
    var col := Column(batch, Inventory);
    if batch[i].inventory.None? {
      MedianWithinColumn(col);
    }
  }

  /**
   * The closed form of a row's score: with its filled values d (days on
   * market), h (homes sold), v (inventory) and its price p, and the maxima
   * of the present days-on-market and price values of the input batch.
   */
  lemma ScoreFormula(batch: seq<Record>, i: nat, d: real, h: real, v: real, p: real, maxDom: real, maxPrice: real)
    requires i < |batch|
    requires Filled(batch)[i].dom == Some(d) && Filled(batch)[i].homesSold == Some(h)
    requires Filled(batch)[i].inventory == Some(v) && Filled(batch)[i].medianPrice == Some(p)
    requires ColumnMax(Column(batch, Dom)) == Some(maxDom) && maxDom != 0.0
    requires ColumnMax(Column(batch, Price)) == Some(maxPrice) && maxPrice != 0.0
    requires v + 1.0 != 0.0
    ensures ComputeScores(batch)[i].score ==
      Some(0.4 * (1.0 - d / maxDom) + 0.4 * (h / (v + 1.0)) + 0.2 * (1.0 - p / maxPrice))
  {
    ScoredRow(batch, i);
    FormulaArithmetic(Filled(batch)[i], d, h, v, p, maxDom, maxPrice);
  }

  lemma FormulaArithmetic(r: Record, d: real, h: real, v: real, p: real, maxDom: real, maxPrice: real)
    requires r.dom == Some(d) && r.homesSold == Some(h) && r.inventory == Some(v) && r.medianPrice == Some(p)
    requires maxDom != 0.0 && maxPrice != 0.0 && v + 1.0 != 0.0
    ensures InvestmentScore(r, Some(maxDom), Some(maxPrice)) ==
      Some(0.4 * (1.0 - d / maxDom) + 0.4 * (h / (v + 1.0)) + 0.2 * (1.0 - p / maxPrice))
  {
  }

  /** Row i's score, with the maxima taken over the input batch. */
  lemma ScoredRow(batch: seq<Record>, i: nat)
    requires i < |batch|
    ensures ComputeScores(batch)[i] == Scored(Filled(batch)[i],
      InvestmentScore(Filled(batch)[i], ColumnMax(Column(batch, Dom)), ColumnMax(Column(batch, Price))))
  {
    FilledMaxima(batch);
  }

  /** Every present numeric value of the batch is non-negative. */
  ghost predicate NonNegative(batch: seq<Record>) {
    forall i, f :: 0 <= i < |batch| && Get(batch[i], f).Some? ==> Get(batch[i], f).value >= 0.0
  }

  predicate InUnit(x: Option<real>) { x.Some? && 0.0 <= x.value <= 1.0 }

  /**
   * With non-negative data, every price present and positive maxima, each
   * row gets a score; its days-on-market and price sub-scores lie in [0, 1],
   * its demand sub-score is non-negative, and so the score lies between 0.4
   * demand and 0.4 demand + 0.6.
   */
  lemma ScoreBounds(batch: seq<Record>)
    requires NonNegative(batch)
    requires forall i :: 0 <= i < |batch| ==> batch[i].medianPrice.Some?
    requires exists j :: 0 <= j < |batch| && batch[j].inventory.Some?
    requires ColumnMax(Column(batch, Dom)).Some? && ColumnMax(Column(batch, Dom)).value > 0.0
    requires ColumnMax(Column(batch, Price)).Some? && ColumnMax(Column(batch, Price)).value > 0.0
    ensures var rows, out := Filled(batch), ComputeScores(batch);
      var maxDom, maxPrice := ColumnMax(Column(batch, Dom)), ColumnMax(Column(batch, Price));
      forall i :: 0 <= i < |batch| ==>
        && InUnit(RatioScore(rows[i].dom, maxDom))
        && InUnit(RatioScore(rows[i].medianPrice, maxPrice))
        && DemandScore(rows[i].homesSold, rows[i].inventory).Some?
        && DemandScore(rows[i].homesSold, rows[i].inventory).value >= 0.0
        && out[i].score.Some?
        && 0.4 * DemandScore(rows[i].homesSold, rows[i].inventory).value <= out[i].score.value
        && out[i].score.value <= 0.4 * DemandScore(rows[i].homesSold, rows[i].inventory).value + 0.6
  {
    forall i | 0 <= i < |batch| {
      RowBounds(batch, i);
    }
  }

  lemma RowBounds(batch: seq<Record>, i: nat)
    requires i < |batch|
    requires NonNegative(batch)
    requires batch[i].medianPrice.Some?
    requires exists j :: 0 <= j < |batch| && batch[j].inventory.Some?
    requires ColumnMax(Column(batch, Dom)).Some? && ColumnMax(Column(batch, Dom)).value > 0.0
    requires ColumnMax(Column(batch, Price)).Some? && ColumnMax(Column(batch, Price)).value > 0.0
    ensures var r := Filled(batch)[i];
      var maxDom, maxPrice := ColumnMax(Column(batch, Dom)), ColumnMax(Column(batch, Price));
      && InUnit(RatioScore(r.dom, maxDom))
      && InUnit(RatioScore(r.medianPrice, maxPrice))
      && DemandScore(r.homesSold, r.inventory).Some?
      && DemandScore(r.homesSold, r.inventory).value >= 0.0
      && ComputeScores(batch)[i].score.Some?
      && 0.4 * DemandScore(r.homesSold, r.inventory).value <= ComputeScores(batch)[i].score.value
      && ComputeScores(batch)[i].score.value <= 0.4 * DemandScore(r.homesSold, r.inventory).value + 0.6
  {
    var r := Filled(batch)[i];
    var maxDom, maxPrice := ColumnMax(Column(batch, Dom)).value, ColumnMax(Column(batch, Price)).value;
    ScoredRow(batch, i);
    FilledKeepsRow(batch, i);
    FilledMaxima(batch);
    var domCol, priceCol := Column(batch, Dom), Column(batch, Price);
    var k :| 0 <= k < |domCol| && domCol[k] == Some(maxDom);
    assert batch[k].dom.Some?;
    FilledWithinColumn(batch, i);
    InventoryFilledWithinColumn(batch, i);
    var d, v, p := r.dom.value, r.inventory.value, r.medianPrice.value;
    var h := r.homesSold.value;
    assert d >= 0.0 by {
      var j :| 0 <= j < |batch| && batch[j].dom.Some? && batch[j].dom.value <= d;
      assert Get(batch[j], Dom).Some?;
    }
    assert d <= maxDom by {
      assert Column(Filled(batch), Dom)[i] == Some(d);
    }
    assert p >= 0.0 && p <= maxPrice by {
      assert Get(batch[i], Price).Some?;
      assert priceCol[i] == Some(p);
    }
    assert v >= 0.0 by {
      var j :| 0 <= j < |batch| && batch[j].inventory.Some? && batch[j].inventory.value <= v;
      assert Get(batch[j], Inventory).Some?;
    }
    assert h >= 0.0 by {
      if batch[i].homesSold.Some? { assert Get(batch[i], HomesSold).Some?; }
    }
    BoundsArithmetic(d, maxDom, h, v, p, maxPrice);
  }

  lemma BoundsArithmetic(d: real, maxDom: real, h: real, v: real, p: real, maxPrice: real)
    requires 0.0 <= d <= maxDom && maxDom > 0.0
    requires 0.0 <= p <= maxPrice && maxPrice > 0.0
    requires h >= 0.0 && v >= 0.0
    ensures InUnit(RatioScore(Some(d), Some(maxDom)))
    ensures InUnit(RatioScore(Some(p), Some(maxPrice)))
    ensures DemandScore(Some(h), Some(v)) == Some(h / (v + 1.0)) && h / (v + 1.0) >= 0.0
    ensures var c := Composite(RatioScore(Some(d), Some(maxDom)), DemandScore(Some(h), Some(v)), RatioScore(Some(p), Some(maxPrice)));
      c.Some? && 0.4 * (h / (v + 1.0)) <= c.value <= 0.4 * (h / (v + 1.0)) + 0.6
  {
  }

  /** The highest-priced row gets price score 0. */
  lemma TopPriceScoresZero(batch: seq<Record>, i: nat)
    requires i < |batch|
    requires ColumnMax(Column(batch, Price)).Some? && ColumnMax(Column(batch, Price)).value != 0.0
    requires batch[i].medianPrice == ColumnMax(Column(batch, Price))
    ensures RatioScore(Filled(batch)[i].medianPrice, ColumnMax(Column(Filled(batch), Price))) == Some(0.0)
  {
    FilledKeepsRow(batch, i);
    FilledMaxima(batch);
  }

  /** Filling touches only inventory, homes sold and days on market. */
  lemma FilledKeepsRow(batch: seq<Record>, i: nat)
    requires i < |batch|
    ensures var r, s := batch[i], Filled(batch)[i];
      && s.zipcode == r.zipcode && s.stateCode == r.stateCode
      && s.medianPrice == r.medianPrice && s.medianListPrice == r.medianListPrice
      && s.monthsSupply == r.monthsSupply
      && s.homesSold == FillCell(r.homesSold, Some(0.0))
      && s.inventory == FillCell(r.inventory, InventoryFill(batch))
      && s.dom == FillCell(r.dom, DomFill(batch))
  {
    assert Filled(batch)[i] == FillRow(batch[i], InventoryFill(batch), DomFill(batch));
  }

  /** In a one-row batch the row is its own maximum: only the demand term remains. */
  lemma SingleRowScore(batch: seq<Record>, d: real, h: real, v: real, p: real)
    requires |batch| == 1
    requires batch[0].dom == Some(d) && d != 0.0
    requires batch[0].homesSold == Some(h) || (batch[0].homesSold == None && h == 0.0)
    requires batch[0].inventory == Some(v) && v + 1.0 != 0.0
    requires batch[0].medianPrice == Some(p) && p != 0.0
    ensures ComputeScores(batch)[0].score == Some(0.4 * (h / (v + 1.0)))
  {
    var row := Filled(batch)[0];
    ScoredRow(batch, 0);
    FilledKeepsRow(batch, 0);
    SingleColumnMax(batch, Dom);
    SingleColumnMax(batch, Price);
    assert ComputeScores(batch)[0].score == InvestmentScore(row, Some(d), Some(p));
    SingleRowArithmetic(row, d, h, v, p);
  }

  lemma SingleColumnMax(batch: seq<Record>, f: Field)
    requires |batch| == 1 && Get(batch[0], f).Some?
    ensures ColumnMax(Column(batch, f)) == Get(batch[0], f)
  {
    ColumnMaxUnique(Column(batch, f), 0);
  }

  lemma SingleRowArithmetic(row: Record, d: real, h: real, v: real, p: real)
    requires row.dom == Some(d) && row.homesSold == Some(h) && row.inventory == Some(v) && row.medianPrice == Some(p)
    requires d != 0.0 && p != 0.0 && v + 1.0 != 0.0
    ensures InvestmentScore(row, Some(d), Some(p)) == Some(0.4 * (h / (v + 1.0)))
  {
    assert d / d == 1.0 && p / p == 1.0;
  }

  /** Days on market 10, 20 and absent: the gap is filled with 15 and scores 1 - 15/20. */
  lemma DomMedianFillExample(r0: Record, r1: Record, r2: Record)
    requires r0.dom == Some(10.0) && r1.dom == Some(20.0) && r2.dom == None
    ensures ComputeScores([r0, r1, r2])[2].rec.dom == Some(15.0)
    ensures RatioScore(ComputeScores([r0, r1, r2])[2].rec.dom, ColumnMax(Column([r0, r1, r2], Dom))) == Some(0.25)
  {
    var batch := [r0, r1, r2];
    ExampleDomFill(r0, r1, r2);
    ScoredRow(batch, 2);
    FilledKeepsRow(batch, 2);
    assert RatioScore(Some(15.0), Some(20.0)) == Some(0.25);
  }

  lemma ExampleDomFill(r0: Record, r1: Record, r2: Record)
    requires r0.dom == Some(10.0) && r1.dom == Some(20.0) && r2.dom == None
    ensures DomFill([r0, r1, r2]) == Some(15.0)
    ensures ColumnMax(Column([r0, r1, r2], Dom)) == Some(20.0)
  {
    var col := Column([r0, r1, r2], Dom);
    assert col == [Some(10.0), Some(20.0), None];
    ColumnMaxUnique(col, 1);
    assert Present(col) == [10.0, 20.0] by {
      assert col[1..] == [Some(20.0), None];
      assert col[2..] == [None];
      assert col[3..] == [];
    }
    MedianOfTwo();
  }

  /** A column with no value at all is left absent, and no row of the batch gets a score. */
  lemma AbsentColumnStaysAbsent(batch: seq<Record>)
    requires forall i :: 0 <= i < |batch| ==> batch[i].dom.None?
    ensures forall i :: 0 <= i < |batch| ==> ComputeScores(batch)[i].rec.dom.None?
    ensures forall i :: 0 <= i < |batch| ==> ComputeScores(batch)[i].score.None?
  {
  }
}
