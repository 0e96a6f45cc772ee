/**
 * The two queries of the command-line tool: the best codes of a city or a
 * state, and the best codes within a radius of a centre code. Each loads
 * the stored market rows of its codes, ranks them and shows the result.
 * The directory and the store are parameters; the distance function stands
 * for the geodesic distance in miles.
 */
module Queries {
  import opened Wrappers
  import opened ZipCodes
  import opened MarketData
  import opened Scoring
  import opened Dedup
  import opened Directory
  import opened Ranking
  import opened Results

  /** The early returns of the two queries (each reports a message and shows nothing). */
  datatype QueryError = InvalidRegionType | NoZipsInRegion | NoMarketData | ZipNotFound(zip: string)

  /** The directory as loaded: every code padded to five digits. */
  function LoadedDirectory(dir: seq<ZipRow>): seq<ZipRow> {
    NormalizeZips(dir)
  }

  /**
   * top_zipcodes_by_region: fails on a region type other than city or state
   * and otherwise, when it succeeds, shows at most five distinct codes.
   */
  function RegionQuery(dir: seq<ZipRow>, store: seq<Record>, regionType: string, value: string)
    : (r: Result<seq<Scored>, QueryError>)
    ensures r == Err(InvalidRegionType) <==> ToLower(regionType) != "city" && ToLower(regionType) != "state"
    ensures r.Err? ==> !r.error.ZipNotFound?
    ensures r.Ok? ==> |r.value| <= TopK && DistinctKeys(r.value, ScoredZipcode)
  {
    var kind := ToLower(regionType);
    if kind != "city" && kind != "state" then Err(InvalidRegionType)
    else
      var zips := RegionZips(LoadedDirectory(dir), kind == "city", value);
      if zips == [] then Err(NoZipsInRegion)
      else
        var data := LoadRealData(store, zips);
        if data == [] then Err(NoMarketData)
        else Ok(ShowResults(TopPicks(data), None, store))
  }

  /** The codes of the nearby rows, each zero-padded to five characters once more. */
  function NearbyZips(rows: seq<NearbyRow>): (zs: seq<string>)
    ensures |zs| == |rows| && forall i :: 0 <= i < |rows| ==> zs[i] == Normalize(rows[i].row.zip)
  {
    seq(|rows|, i requires 0 <= i < |rows| => Normalize(rows[i].row.zip))
  }

  /**
   * top_zipcodes_by_proximity; the padded centre is the code to highlight.
   * It fails only on an unknown centre (reporting the padded code) or for
   * lack of market data, and otherwise shows codes that are distinct.
   */
  function ProximityQuery(dir: seq<ZipRow>, store: seq<Record>, center: string, radius: real,
                          dist: (Point, Point) -> real): (r: Result<seq<Scored>, QueryError>)
    ensures r.Err? ==> r.error == NoMarketData || r.error == ZipNotFound(Normalize(center))
    ensures r.Ok? ==> DistinctKeys(r.value, ScoredZipcode)
  {
    match NearbyZipcodes(LoadedDirectory(dir), center, radius, dist)
    case Err(zip) => Err(ZipNotFound(zip))
    case Ok(nearby) =>
      var data := LoadRealData(store, NearbyZips(nearby));
      if data == [] then Err(NoMarketData)
      else Ok(ShowResults(TopPicks(data), Some(Normalize(center)), store))
  }

  /**
   * A region query fails on a region type other than city or state (in any
   * letter case), and otherwise fails for lack of codes exactly when no
   * directory row carries the region name (in any letter case).
   */
  lemma RegionQueryErrors(dir: seq<ZipRow>, store: seq<Record>, regionType: string, value: string)
    ensures var kind := ToLower(regionType);
      && (RegionQuery(dir, store, regionType, value) == Err(InvalidRegionType) <==> kind != "city" && kind != "state")
      && ((kind == "city" || kind == "state") ==>
            (RegionQuery(dir, store, regionType, value) == Err(NoZipsInRegion) <==>
             forall r :: r in LoadedDirectory(dir) ==> !LabelsMatch(RegionLabel(r, kind == "city"), value)))
  {
    var kind := ToLower(regionType);
    if kind == "city" || kind == "state" {
      var table := LoadedDirectory(dir);
      var byCity := kind == "city";
      if forall r :: r in table ==> !LabelsMatch(RegionLabel(r, byCity), value) {
        RegionZipsEmpty(table, byCity, value);
      } else {
        var r :| r in table && LabelsMatch(RegionLabel(r, byCity), value);
        RegionRowListed(table, byCity, value, r);
      }
    }
  }

  /**
   * A successful region query shows at most five rows with distinct
   * zipcodes, each the code of a directory row of the region for which the
   * store holds a priced row.
   */
  lemma RegionQueryResult(dir: seq<ZipRow>, store: seq<Record>, regionType: string, value: string)
    requires RegionQuery(dir, store, regionType, value).Ok?
    ensures var kind := ToLower(regionType);
      var shown := RegionQuery(dir, store, regionType, value).value;
      && |shown| <= TopK
      && DistinctKeys(shown, ScoredZipcode)
      && forall x :: x in shown ==>
           && (exists r :: r in LoadedDirectory(dir) && r.zip == x.rec.zipcode && LabelsMatch(RegionLabel(r, kind == "city"), value))
           && (exists s :: s in store && s.zipcode == x.rec.zipcode && s.medianPrice.Some?)
  {
    var kind := ToLower(regionType);
    var table := LoadedDirectory(dir);
    var data := LoadRealData(store, RegionZips(table, kind == "city", value));
    var top := TopPicks(data);
    assert RegionQuery(dir, store, regionType, value).value == ShowResults(top, None, store);
    RankedShape(top, data, store);
    ShownZipcodes(top, None, store);
    forall x | x in ShowResults(top, None, store)
      ensures && (exists r :: r in table && r.zip == x.rec.zipcode && LabelsMatch(RegionLabel(r, kind == "city"), value))
              && (exists s :: s in store && s.zipcode == x.rec.zipcode && s.medianPrice.Some?)
    {
      RegionRankedOrigin(table, kind == "city", value, store, x.rec.zipcode);
    }
  }

  /** The ranking of a batch, shown without a highlight, keeps at most five distinct codes. */
  lemma RankedShape(top: seq<Scored>, data: seq<Record>, store: seq<Record>)
    requires top == TopPicks(data)
    ensures DistinctKeys(top, ScoredZipcode)
    ensures |ShowResults(top, None, store)| <= TopK
    ensures DistinctKeys(ShowResults(top, None, store), ScoredZipcode)
  {
    TopPicksSpec(data);
    ShowResultsSpec(top, None, store);
  }

  /** A ranked code of a region query is a region code with a priced stored row. */
  lemma RegionRankedOrigin(table: seq<ZipRow>, byCity: bool, value: string, store: seq<Record>, z: string)
    requires exists y :: y in TopPicks(LoadRealData(store, RegionZips(table, byCity, value))) && y.rec.zipcode == z
    ensures exists r :: r in table && r.zip == z && LabelsMatch(RegionLabel(r, byCity), value)
    ensures exists s :: s in store && s.zipcode == z && s.medianPrice.Some?
  {
    var data := LoadRealData(store, RegionZips(table, byCity, value));
    TopPicksFromData(data);
    var s :| s in data && s.zipcode == z;
    RegionZipFromRow(table, byCity, value, z);
  }

  /**
   * A centre code missing from the directory fails the proximity query
   * with the padded code, whatever the store holds.
   */
  lemma ProximityUnknownCentre(dir: seq<ZipRow>, store: seq<Record>, center: string, radius: real,
                               dist: (Point, Point) -> real)
    ensures ProximityQuery(dir, store, center, radius, dist) == Err(ZipNotFound(Normalize(center))) <==>
      forall r :: r in LoadedDirectory(dir) ==> r.zip != Normalize(center)
  {
    var table := LoadedDirectory(dir);
    if forall r :: r in table ==> r.zip != Normalize(center) {
      assert forall k :: 0 <= k < |table| ==> table[k] in table;
    } else {
      var r :| r in table && r.zip == Normalize(center);
    }
  }

  /**
   * A city or state query whose region has codes zs fails for lack of market
   * data exactly when no stored row carries one of zs with a price, and
   * succeeds otherwise.
   */
  lemma RegionQueryNoData(dir: seq<ZipRow>, store: seq<Record>, regionType: string, value: string)
    requires ToLower(regionType) == "city" || ToLower(regionType) == "state"
    requires RegionZips(LoadedDirectory(dir), ToLower(regionType) == "city", value) != []
    ensures var zs := RegionZips(LoadedDirectory(dir), ToLower(regionType) == "city", value);
      var none := forall i :: 0 <= i < |store| ==> store[i].zipcode !in zs || store[i].medianPrice.None?;
      && (RegionQuery(dir, store, regionType, value) == Err(NoMarketData) <==> none)
      && (!none ==> RegionQuery(dir, store, regionType, value).Ok?)
  {
    LoadRealDataEmpty(store, RegionZips(LoadedDirectory(dir), ToLower(regionType) == "city", value));
  }

  /**
   * A proximity query whose centre is known fails for lack of market data
   * exactly when no stored row carries a nearby code with a price, and
   * succeeds otherwise.
   */
  lemma ProximityQueryNoData(dir: seq<ZipRow>, store: seq<Record>, center: string, radius: real,
                             dist: (Point, Point) -> real)
    requires NearbyZipcodes(LoadedDirectory(dir), center, radius, dist).Ok?
    ensures var zs := NearbyZips(NearbyZipcodes(LoadedDirectory(dir), center, radius, dist).value);
      var none := forall i :: 0 <= i < |store| ==> store[i].zipcode !in zs || store[i].medianPrice.None?;
      && (ProximityQuery(dir, store, center, radius, dist) == Err(NoMarketData) <==> none)
      && (!none ==> ProximityQuery(dir, store, center, radius, dist).Ok?)
  {
    LoadRealDataEmpty(store, NearbyZips(NearbyZipcodes(LoadedDirectory(dir), center, radius, dist).value));
  }

  /**
   * The nearby rows come from the loaded directory, whose codes are already
   * padded, so padding them again changes nothing.
   */
  lemma NearbyZipsPadded(table: seq<ZipRow>, center: string, radius: real, dist: (Point, Point) -> real)
    requires NearbyZipcodes(table, center, radius, dist).Ok?
    ensures var nearby := NearbyZipcodes(table, center, radius, dist).value;
      forall i :: 0 <= i < |nearby| ==> NearbyZips(nearby)[i] == nearby[i].row.zip
  {
    var nearby := NearbyZipcodes(table, center, radius, dist).value;
    var df := NormalizeZips(table);
    NearbyZipcodesSpec(table, center, radius, dist);
    NormalizeZipsNormalizes(table);
    forall i | 0 <= i < |nearby| ensures NearbyZips(nearby)[i] == nearby[i].row.zip {
      assert nearby[i] in nearby;
      var k :| 0 <= k < |df| && df[k] == nearby[i].row;
    }
  }

  /** Every zipcode shown by show_results is a ranked one or the highlighted one. */
  lemma ShownZipcodes(top: seq<Scored>, highlight: Option<string>, store: seq<Record>)
    requires DistinctKeys(top, ScoredZipcode)
    ensures forall x :: x in ShowResults(top, highlight, store) ==>
      (exists y :: y in top && y.rec.zipcode == x.rec.zipcode) || (highlight.Some? && x.rec.zipcode == highlight.value)
  {
    ShowResultsSpec(top, highlight, store);
    var ranked := ToPercent(top, MaxScore(top));
    forall x | x in ShowResults(top, highlight, store)
      ensures (exists y :: y in top && y.rec.zipcode == x.rec.zipcode) || (highlight.Some? && x.rec.zipcode == highlight.value)
    {
      if x in ranked {
        var i :| 0 <= i < |ranked| && ranked[i] == x;
        assert top[i] in top;
      }
    }
  }

  /**
   * A successful proximity query shows at most six rows with distinct
   * zipcodes; every row but the centre's is the code of a directory row
   * within the radius for which the store holds a priced row; and the centre
   * is shown whenever the store holds a priced row for it.
   */
  lemma ProximityQueryResult(dir: seq<ZipRow>, store: seq<Record>, center: string, radius: real,
                             dist: (Point, Point) -> real)
    requires ProximityQuery(dir, store, center, radius, dist).Ok?
    ensures var shown := ProximityQuery(dir, store, center, radius, dist).value;
      var c := Normalize(center);
      var nearby := NearbyZipcodes(LoadedDirectory(dir), center, radius, dist).value;
      && |shown| <= TopK + 1
      && DistinctKeys(shown, ScoredZipcode)
      && (forall x :: x in shown && x.rec.zipcode != c ==>
            && (exists n :: n in nearby && n.row.zip == x.rec.zipcode && n.distance <= radius)
            && (exists s :: s in store && s.zipcode == x.rec.zipcode && s.medianPrice.Some?))
      && ((exists s :: s in store && s.zipcode == c && s.medianPrice.Some?) ==>
            exists x :: x in shown && x.rec.zipcode == c)
  {
    var table := LoadedDirectory(dir);
    var c := Normalize(center);
    var nearby := NearbyZipcodes(table, center, radius, dist).value;
    var data := LoadRealData(store, NearbyZips(nearby));
    var top := TopPicks(data);
    var shown := ShowResults(top, Some(c), store);
    TopPicksSpec(data);
    TopPicksFromData(data);
    ShowResultsSpec(top, Some(c), store);
    ShownZipcodes(top, Some(c), store);
    NearbyZipcodesSpec(table, center, radius, dist);
    NearbyZipsPadded(table, center, radius, dist);
    forall x | x in shown && x.rec.zipcode != c
      ensures && (exists n :: n in nearby && n.row.zip == x.rec.zipcode && n.distance <= radius)
              && (exists s :: s in store && s.zipcode == x.rec.zipcode && s.medianPrice.Some?)
    {
      var y :| y in top && y.rec.zipcode == x.rec.zipcode;
      var s :| s in data && s.zipcode == y.rec.zipcode;
      var k :| 0 <= k < |nearby| && NearbyZips(nearby)[k] == s.zipcode;
      assert nearby[k] in nearby;
    }
    if exists s :: s in store && s.zipcode == c && s.medianPrice.Some? {
      CentreShown(top, c, store);
    }
  }

  /** With a priced row stored for it, the highlighted code is shown. */
  lemma CentreShown(top: seq<Scored>, c: string, store: seq<Record>)
    requires DistinctKeys(top, ScoredZipcode) && |c| >= ZipWidth
    requires exists s :: s in store && s.zipcode == c && s.medianPrice.Some?
    ensures exists x :: x in ShowResults(top, Some(c), store) && x.rec.zipcode == c
  {
    ShowResultsSpec(top, Some(c), store);
    var shown := ShowResults(top, Some(c), store);
    if PinApplies(top, Some(c), store) {
      assert shown[0] in shown;
    } else {
      var s :| s in store && s.zipcode == c && s.medianPrice.Some?;
      assert s in LoadRealData(store, [c]);
      var i :| 0 <= i < |top| && Zipcodes(top)[i] == c;
      var ranked := ToPercent(top, MaxScore(top));
      assert ranked[i] in shown && ranked[i].rec.zipcode == c;
    }
  }
}
