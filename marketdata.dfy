/**
 * Market statistics rows and the loader's post-condition: rows for the
 * requested codes, already under the canonical column names, without the
 * rows whose median sale price is missing.
 */
module MarketData {
  import opened Wrappers

  /**
   * One row of market statistics under the names the scoring code uses
   * (ZIP -> zipcode, MEDIAN_SALE_PRICE -> medianPrice, MEDIAN_LIST_PRICE ->
   * medianListPrice, HOMES_SOLD -> homesSold, INVENTORY -> inventory,
   * MONTHS_OF_SUPPLY -> monthsSupply, MEDIAN_DOM -> dom).
   */
  datatype Record = Record(
    zipcode: string,
    stateCode: string,
    medianPrice: Option<real>,
    medianListPrice: Option<real>,
    homesSold: Option<real>,
    inventory: Option<real>,
    monthsSupply: Option<real>,
    dom: Option<real>)

  /** The key drop_duplicates(subset='zipcode') compares. */
  function ZipcodeOf(r: Record): string { r.zipcode }

  /**
   * The stored rows whose ZIP is one of the requested codes and whose median
   * sale price is present, in store order.
   */
  function LoadRealData(store: seq<Record>, zips: seq<string>): (rows: seq<Record>)
    ensures |rows| <= |store|
    ensures forall r :: r in rows <==> r in store && r.zipcode in zips && r.medianPrice.Some?
  {
    if store == [] then []
    else
      assert store == [store[0]] + store[1..];
      var rest := LoadRealData(store[1..], zips);
      if store[0].zipcode in zips && store[0].medianPrice.Some? then [store[0]] + rest else rest
  }

  /** Loading finds a row exactly when the store holds a priced row for a requested code. */
  lemma LoadRealDataEmpty(store: seq<Record>, zips: seq<string>)
    ensures LoadRealData(store, zips) == [] <==>
      forall i :: 0 <= i < |store| ==> store[i].zipcode !in zips || store[i].medianPrice.None?
  {
    var rows := LoadRealData(store, zips);
    if rows != [] {
      assert rows[0] in rows;
    }
    forall i | 0 <= i < |store| && store[i].zipcode in zips && store[i].medianPrice.Some?
      ensures rows != []
    {
      assert store[i] in rows;
    }
  }

  /** The load is a filter that keeps store order: loading a concatenation concatenates the loads. */
  lemma {:induction false} LoadRealDataAppend(a: seq<Record>, b: seq<Record>, zips: seq<string>)
    ensures LoadRealData(a + b, zips) == LoadRealData(a, zips) + LoadRealData(b, zips)
  {
    if a != [] {
      LoadRealDataAppend(a[1..], b, zips);
      assert (a + b)[1..] == a[1..] + b;
      assert (a + b)[0] == a[0];
    } else {
      assert a + b == b;
    }
  }

  /** The first loaded row is the first stored row with a requested code and a present price. */
  lemma {:induction false} LoadRealDataFirst(store: seq<Record>, zips: seq<string>)
    requires LoadRealData(store, zips) != []
    ensures exists k ::
      && 0 <= k < |store| && LoadRealData(store, zips)[0] == store[k]
      && store[k].zipcode in zips && store[k].medianPrice.Some?
      && forall m :: 0 <= m < k ==> store[m].zipcode !in zips || store[m].medianPrice.None?
  {
    if store[0].zipcode in zips && store[0].medianPrice.Some? {
      assert LoadRealData(store, zips)[0] == store[0];
    } else {
      LoadRealDataFirst(store[1..], zips);
      var k :| 0 <= k < |store[1..]| && LoadRealData(store[1..], zips)[0] == store[1..][k]
        && store[1..][k].zipcode in zips && store[1..][k].medianPrice.Some?
        && forall m :: 0 <= m < k ==> store[1..][m].zipcode !in zips || store[1..][m].medianPrice.None?;
      forall m | 0 <= m < k + 1 ensures store[m].zipcode !in zips || store[m].medianPrice.None? {
        if m > 0 { assert store[m] == store[1..][m - 1]; }
      }
    }
  }
}
