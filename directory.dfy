/**
 * The ZIP directory (code, coordinates, city and state labels): loading with
 * zero padding, the radius filter around a centre code, and the
 * case-insensitive region filter.
 */
module Directory {
  import opened Wrappers
  import opened ZipCodes
  import opened Dedup

  /** A point as (latitude, longitude). */
  type Point = (real, real)

  datatype ZipRow = ZipRow(zip: string, lat: real, lng: real, city: string, state: string)

  /** A directory row together with its distance to the centre, in miles. */
  datatype NearbyRow = NearbyRow(row: ZipRow, distance: real)

  function Location(r: ZipRow): Point { (r.lat, r.lng) }

  function ZipOf(r: ZipRow): string { r.zip }

  /** Every directory row carries a code of at least five characters. */
  ghost predicate NormalizedTable(table: seq<ZipRow>) {
    forall i :: 0 <= i < |table| ==> table[i].zip == Normalize(table[i].zip)
  }

  /** The same rows with every code zero-padded to five characters. */
  function NormalizeZips(table: seq<ZipRow>): (r: seq<ZipRow>)
    ensures |r| == |table|
    ensures forall i :: 0 <= i < |table| ==> r[i] == table[i].(zip := Normalize(table[i].zip))
  {
    seq(|table|, i requires 0 <= i < |table| => table[i].(zip := Normalize(table[i].zip)))
  }

  /** Loading the directory normalises every code, once and for all. */
  lemma NormalizeZipsNormalizes(table: seq<ZipRow>)
    ensures NormalizedTable(NormalizeZips(table))
    ensures NormalizeZips(NormalizeZips(table)) == NormalizeZips(table)
  {
    forall i | 0 <= i < |table| {
      NormalizeIdempotent(table[i].zip);
    }
  }

  /** Index of the first row carrying code z. */
  function FirstIndexOf(table: seq<ZipRow>, z: string): (i: int)
    ensures -1 <= i < |table|
    ensures i == -1 <==> forall k :: 0 <= k < |table| ==> table[k].zip != z
    ensures i >= 0 ==> table[i].zip == z && forall k :: 0 <= k < i ==> table[k].zip != z
  {
    if table == [] then -1
    else if table[0].zip == z then 0
    else
      var k := FirstIndexOf(table[1..], z);
      if k == -1 then -1 else k + 1
  }

  /** The rows (with their distances) within radius of p, in table order. */
  function WithinRadius(table: seq<ZipRow>, p: Point, radius: real, dist: (Point, Point) -> real): (r: seq<NearbyRow>)
    ensures |r| <= |table|
    ensures forall x :: x in r <==> x.row in table && x.distance == dist(p, Location(x.row)) && x.distance <= radius
  {
    if table == [] then []
    else
      assert table == [table[0]] + table[1..];
      var d := dist(p, Location(table[0]));
      var rest := WithinRadius(table[1..], p, radius, dist);
      if d <= radius then [NearbyRow(table[0], d)] + rest else rest
  }

  /** The radius filter keeps table order: filtering a concatenation concatenates the results. */
  lemma {:induction false} WithinRadiusAppend(a: seq<ZipRow>, b: seq<ZipRow>, p: Point, radius: real,
                                              dist: (Point, Point) -> real)
    ensures WithinRadius(a + b, p, radius, dist) == WithinRadius(a, p, radius, dist) + WithinRadius(b, p, radius, dist)
  {
    if a != [] {
      var ab := a + b;
      WithinRadiusAppend(a[1..], b, p, radius, dist);
      assert ab[1..] == a[1..] + b && ab[0] == a[0];
      var d := dist(p, Location(a[0]));
      var head := if d <= radius then [NearbyRow(a[0], d)] else [];
      assert WithinRadius(a, p, radius, dist) == head + WithinRadius(a[1..], p, radius, dist);
      assert WithinRadius(ab, p, radius, dist) == head + WithinRadius(ab[1..], p, radius, dist);
    } else {
      assert a + b == b;
    }
  }

  /**
   * get_nearby_zipcodes: pads the centre code, fails when no row carries it,
   * otherwise measures from the first such row and keeps the rows no farther
   * than radius.
   */
  function NearbyZipcodes(table: seq<ZipRow>, center: string, radius: real, dist: (Point, Point) -> real)
    : (r: Result<seq<NearbyRow>, string>)
    ensures r.Err? <==> forall k :: 0 <= k < |NormalizeZips(table)| ==> NormalizeZips(table)[k].zip != Normalize(center)
    ensures r.Err? ==> r.error == Normalize(center)
  {
    var df := NormalizeZips(table);
    var c := Normalize(center);
    var i := FirstIndexOf(df, c);
    if i == -1 then Err(c)
    else Ok(WithinRadius(df, Location(df[i]), radius, dist))
  }

  /**
   * What the radius filter returns: exactly the (normalised) rows whose
   * distance from the first row of the centre code is at most radius, each
   * with that distance; the centre row itself is among them when the radius
   * is not negative and a point is at distance 0 from itself.
   */
  lemma NearbyZipcodesSpec(table: seq<ZipRow>, center: string, radius: real, dist: (Point, Point) -> real)
    requires NearbyZipcodes(table, center, radius, dist).Ok?
    ensures var df := NormalizeZips(table);
      var i := FirstIndexOf(df, Normalize(center));
      var rows := NearbyZipcodes(table, center, radius, dist).value;
      && 0 <= i < |df| && df[i].zip == Normalize(center)
      && rows == WithinRadius(df, Location(df[i]), radius, dist)
      && (forall x :: x in rows <==> x.row in df && x.distance == dist(Location(df[i]), Location(x.row)) && x.distance <= radius)
      && (radius >= 0.0 && dist(Location(df[i]), Location(df[i])) == 0.0 ==> NearbyRow(df[i], 0.0) in rows)
  {
  }

  /** Padding makes a code with leading zeros findable under its short spelling. */
  lemma NearbyFindsShortCode(table: seq<ZipRow>, radius: real, dist: (Point, Point) -> real)
    requires |table| > 0 && table[0].zip == "02134"
    ensures NearbyZipcodes(table, "2134", radius, dist).Ok?
  {
    assert Zeros(1) == "0";
    assert Normalize("2134") == "02134" == Normalize("02134");
    assert NormalizeZips(table)[0].zip == "02134";
  }

  /** The directory label a region query compares: the city or the state. */
  function RegionLabel(r: ZipRow, byCity: bool): string {
    if byCity then r.city else r.state
  }

  function MatchingRows(table: seq<ZipRow>, byCity: bool, value: string): (r: seq<ZipRow>)
    ensures forall x :: x in r <==> x in table && LabelsMatch(RegionLabel(x, byCity), value)
    ensures |r| <= |table|
    ensures (forall x :: x in table ==> !LabelsMatch(RegionLabel(x, byCity), value)) ==> r == []
  {
    if table == [] then []
    else
      assert table == [table[0]] + table[1..];
      var rest := MatchingRows(table[1..], byCity, value);
      if LabelsMatch(RegionLabel(table[0], byCity), value) then [table[0]] + rest else rest
  }

  function Zips(rows: seq<ZipRow>): (r: seq<string>)
    ensures |r| == |rows| && forall i :: 0 <= i < |rows| ==> r[i] == rows[i].zip
  {
    seq(|rows|, i requires 0 <= i < |rows| => rows[i].zip)
  }

  /**
   * The codes of a region (zipinfo[label.lower() == value.lower()]['zip']
   * .unique()), each once, in order of first appearance.
   */
  function RegionZips(table: seq<ZipRow>, byCity: bool, value: string): (zs: seq<string>)
    ensures |zs| <= |table|
    ensures forall i, j :: 0 <= i < j < |zs| ==> zs[i] != zs[j]
  {
    var unique := DropDuplicates(MatchingRows(table, byCity, value), ZipOf);
    DropDuplicatesFromKeys(MatchingRows(table, byCity, value), ZipOf, {});
    Zips(unique)
  }

  /** A code is listed once, and exactly when some row of the region carries it. */
  lemma RegionZipsSpec(table: seq<ZipRow>, byCity: bool, value: string)
    ensures var zs := RegionZips(table, byCity, value);
      && (forall i, j :: 0 <= i < j < |zs| ==> zs[i] != zs[j])
      && (forall z :: z in zs <==> exists r :: r in table && r.zip == z && LabelsMatch(RegionLabel(r, byCity), value))
  {
    var m := MatchingRows(table, byCity, value);
    DropDuplicatesSpec(m, ZipOf);
    forall z | z in RegionZips(table, byCity, value)
      ensures exists r :: r in table && r.zip == z && LabelsMatch(RegionLabel(r, byCity), value)
    {
      RegionZipFromRow(table, byCity, value, z);
    }
    forall r | r in table && LabelsMatch(RegionLabel(r, byCity), value)
      ensures r.zip in RegionZips(table, byCity, value)
    {
      RegionRowListed(table, byCity, value, r);
    }
  }

  lemma RegionZipFromRow(table: seq<ZipRow>, byCity: bool, value: string, z: string)
    requires z in RegionZips(table, byCity, value)
    ensures exists r :: r in table && r.zip == z && LabelsMatch(RegionLabel(r, byCity), value)
  {
    var m := MatchingRows(table, byCity, value);
    var d := DropDuplicates(m, ZipOf);
    var zs := Zips(d);
    var i :| 0 <= i < |zs| && zs[i] == z;
    DropDuplicatesKeepsRow(m, ZipOf, i);
    assert d[i] in m;
  }

  lemma RegionRowListed(table: seq<ZipRow>, byCity: bool, value: string, r: ZipRow)
    requires r in table && LabelsMatch(RegionLabel(r, byCity), value)
    ensures r.zip in RegionZips(table, byCity, value)
  {
    var m := MatchingRows(table, byCity, value);
    var d := DropDuplicates(m, ZipOf);
    var zs := Zips(d);
    var j :| 0 <= j < |m| && m[j] == r;
    DropDuplicatesKeepsKey(m, ZipOf, j);
    var i :| 0 <= i < |d| && ZipOf(d[i]) == ZipOf(m[j]);
    assert zs[i] == r.zip;
  }

  /** A label that no row carries yields no codes. */
  lemma RegionZipsEmpty(table: seq<ZipRow>, byCity: bool, value: string)
    requires forall r :: r in table ==> !LabelsMatch(RegionLabel(r, byCity), value)
    ensures RegionZips(table, byCity, value) == []
  {
    assert MatchingRows(table, byCity, value) == [];
  }
}
