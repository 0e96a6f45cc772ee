# REInA scoring and ranking, modelled in Dafny

REInA is a command-line tool that ranks US postal codes (ZIP codes) as
real-estate investment targets. Given a city or state, or a centre code
and a radius in miles, it:

- looks the codes up in a ZIP directory (code, latitude, longitude, city, state);
- loads the market statistics stored for those codes (median sale price,
  homes sold, inventory, days on market, ...);
- fills missing values with batch medians (or 0 for homes sold);
- scores every code as `0.4 * dom_score + 0.4 * demand_score + 0.2 * price_score`;
- keeps the five best codes;
- shows them as percentages of the best score, with the centre code pinned
  in front for a proximity query.

This project models that pipeline (`main.py`) as pure functions over
sequences and proves what it promises. The modules are:

- `ZipCodes` (zero padding, case-insensitive labels, the radius answer);
- `Stats` (column maximum and median);
- `Dedup` (`drop_duplicates`);
- `MarketData` (the stored rows and the load);
- `Directory` (the radius filter and the region filter);
- `Scoring` (`compute_scores`);
- `Ranking` (sort and top five);
- `Results` (`show_results`);
- `Queries` (the region query and the proximity query).

Modelling choices:
- **Missing values:** a missing value, and a value that pandas would compute
  as NaN (0/0) or as an infinity (a non-zero value divided by 0), is `None`.
  A missing score sorts last, as NaN does in pandas by default; the model
  does not keep the infinities apart (see "## Left out").
- **Distance:** the geodesic distance is a function parameter `dist`.
- **Store and directory:** both are sequences. The store's rows are already
  under the canonical column names, and the SQL result order is the store
  order.
- **Ranking order:** the pipeline sorts with one concrete sort. The ranking
  properties are proved for every score-sorted reordering (`TopOfSorted`), so
  no tie order is promised: pandas' default sort is not stable.

Where the code's behaviour may be surprising, the model follows it:
- **Radius:** any radius is accepted, not only a positive one. Only the
  command-line answer is restricted, to decimal digits.
- **Ties:** ties in score are not broken by code.
- **Padding twice:** the proximity query pads the nearby codes again
  (`Queries.NearbyZips`), although the directory is padded when loaded.
  The second padding changes nothing (`Queries.NearbyZipsPadded`).
- **The pinned centre:** all priced stored rows of the centre are scored as
  a batch of their own, rescaled by the best score of the ranking and put in front.
  The final `drop_duplicates` then keeps the first of them, so at most one
  extra row is shown.
- **The 100% entry:** the top entry shows 100% whenever the best score is
  present and not zero (`TopShowsHundred`). That no entry exceeds 100% is
  proved for a positive best score (`PercentOfRanking`); with a negative best
  score the lower entries would exceed 100%.

## Model

| member | source | states |
|---|---|---|
| ZipCodes.ZFill | main.py:16 | `str.zfill`: pads on the left with zeros up to the width. A leading sign stays in front. A string already at least as long is unchanged. |
| ZipCodes.Normalize | main.py:21-22 | A normalised code is at least five characters long. |
| ZipCodes.NormalizeIdempotent | main.py:22 | Padding an already padded code changes nothing, so the second padding of the directory codes is harmless. |
| ZipCodes.NormalizeFourDigits | main.py:21 | A four-digit code gains exactly one leading zero. |
| ZipCodes.NormalizeKeepsValue | main.py:16 | Padding a digit string keeps it a digit string with the same numeric value, and the original is its suffix. |
| ZipCodes.ToLower | main.py:123 | Lower-casing keeps the length and maps upper-case ASCII letters to lower case. |
| ZipCodes.ToLowerIdempotent | main.py:128 | Lower-casing twice equals lower-casing once, and leaves no upper-case letter. |
| ZipCodes.LabelsMatchEquivalence | main.py:128 | The case-insensitive label comparison is reflexive, symmetric and transitive. |
| ZipCodes.LabelsMatchIgnoresCase | main.py:128 | "Reston" matches "RESTON" but not "Restons". |
| ZipCodes.ParseRadius | main.py:176 | An empty or non-numeric answer gives the default radius of 20. |
| ZipCodes.ParseRadiusDecimal | main.py:176 | Any number written in decimal reads back as itself. |
| Stats.Present | main.py:55 | The present values of a column: a value is kept iff some entry holds it, and none is kept when no entry is present. |
| Stats.PresentCounts | main.py:55 | Each value occurs among the present values exactly as often as it occurs in the column. |
| Stats.ColumnMax | main.py:58 | `Series.max()` is absent iff no value is present; otherwise it is a present value and no present value exceeds it. |
| Stats.ColumnMaxUnique | main.py:58 | A present value that no present value exceeds is the maximum. |
| Stats.SortAsc | main.py:55 | Sorting for the median gives an ascending permutation. |
| Stats.Median | main.py:55 | `Series.median()` is absent iff there are no values; otherwise it lies between two of the values. |
| Stats.SortedUnique | main.py:55 | Two ascending orderings of the same values (with multiplicity) are equal. |
| Stats.MedianOfSorted | main.py:55-57 | For any ascending ordering of the values, the median is its middle value (odd count) or the mean of its two middle values (even count); absent for no values. |
| Stats.MedianCountsRepeats | main.py:55 | Repeated values count: the median of the present values 1, 1, 5 is 1. |
| Stats.MedianOfTwo | main.py:57 | The median of 10 and 20 is 15. |
| Stats.MedianWithinColumn | main.py:55-57 | For a column with some present value, the median of its present values is present, at most the column maximum and at least some present value. |
| Stats.FillColumn | main.py:55-57 | `fillna` keeps every present entry and puts the fill value in every missing one, keeping the length. |
| Stats.FillMedianKeepsMax | main.py:57-58 | Filling a column with its own median leaves its maximum unchanged. |
| Dedup.DropDuplicates | main.py:140 | `drop_duplicates` never lengthens a sequence. |
| Dedup.DropDuplicatesSpec | main.py:140 | Keys of the result are distinct, each kept row is the first row of its key, and every key of the input is kept. |
| Dedup.DropDuplicatesKeepsKey | main.py:129 | The key of every input row is the key of some kept row. |
| Dedup.DropDuplicatesKeepsRow | main.py:129 | Every kept row is a row of the input. |
| Dedup.DropDuplicatesOfDistinct | main.py:81 | On rows whose keys are already distinct, `drop_duplicates` changes nothing. |
| Dedup.DropDuplicatesOfPrefix | main.py:79-81 | Rows of one new key put in front of distinct rows without that key collapse to the first of them. |
| Dedup.DistinctKeysPermutation | main.py:142 | A reordering of rows with distinct keys still has distinct keys. |
| MarketData.LoadRealData | main.py:31-50 | A stored row is loaded iff its code was asked for and its median sale price is present. |
| MarketData.LoadRealDataAppend | main.py:31-50 | The load is an order-keeping filter of the store: loading a concatenation gives the concatenated loads, so rows keep store order and multiplicity. |
| MarketData.LoadRealDataFirst | main.py:31-50 | The first loaded row is the first stored row with a requested code and a present price. |
| MarketData.LoadRealDataEmpty | main.py:136 | The load is empty iff no stored row has a requested code and a present price. |
| Directory.NormalizeZips | main.py:16 | Loading the directory pads every code and changes nothing else. |
| Directory.NormalizeZipsNormalizes | main.py:22 | After loading, every code is padded, and padding again changes nothing. |
| Directory.FirstIndexOf | main.py:23-26 | The centre row is the first row with the centre code; -1 iff there is none. |
| Directory.WithinRadius | main.py:27-28 | A row and its distance are kept iff the distance from the centre is at most the radius. |
| Directory.WithinRadiusAppend | main.py:27-28 | The radius filter keeps table order: filtering a concatenation gives the concatenated results. |
| Directory.NearbyZipcodes | main.py:19-28 | Fails with the padded code iff no directory row carries it. |
| Directory.NearbyZipcodesSpec | main.py:19-28 | On success, the result is the radius filter of the padded table around the first centre row (in table order, by `WithinRadiusAppend`): exactly the rows within the radius, each with its distance. The centre row is among them when the radius is not negative and `dist(c, c) == 0`. |
| Directory.NearbyFindsShortCode | main.py:21-23 | "2134" finds the row of "02134". |
| Directory.MatchingRows | main.py:128 | A row is selected iff its city or state label equals the value, ignoring case. |
| Directory.RegionZips | main.py:128-129 | The region's code list never has more codes than the directory has rows, and no code is listed twice. |
| Directory.RegionZipsSpec | main.py:128-129 | Each region code is listed once, and listed iff some matching row carries it. |
| Directory.RegionZipFromRow | main.py:129 | A listed code comes from a matching row. |
| Directory.RegionRowListed | main.py:129 | The code of a matching row is listed. |
| Directory.RegionZipsEmpty | main.py:131-133 | With no matching row the code list is empty. |
| Scoring.Filled | main.py:55-57 | Filling produces one row per input row, each the input row with its fills. |
| Scoring.ComputeScores | main.py:53-62 | One scored row per input row, with the zipcode kept. Its score is the weighted score of the filled row against the filled batch's maxima. |
| Scoring.RatioScore | main.py:58-60 | The days-on-market score and the price score (`1 - x / max`) are absent iff the value or the maximum is absent or the maximum is 0. Each lies in [0, 1] for a value between 0 and a positive maximum, and the code at the maximum (the slowest, the most expensive) scores 0. |
| Scoring.DemandScore | main.py:59 | The demand score is absent iff an operand is absent or the inventory is -1. It is non-negative on non-negative data, and 0 when no home sold. |
| Scoring.Composite | main.py:61 | The weighted score is present iff all three parts are. Being a weighted mean, it lies in [0, 1] when all three parts do. |
| Scoring.InvestmentScore | main.py:58-61 | A row's score is present iff its days on market, homes sold, inventory and price are present, the inventory is not -1, and both maxima are present and non-zero. |
| Scoring.ComputeScoresFills | main.py:55-57 | Only the three filled fields change. Missing homes sold become 0. Missing inventory and days on market become the batch median of present values, which is absent iff the column has none. |
| Scoring.FilledColumnsComplete | main.py:55-57 | After filling, homes sold is always present. Inventory and days on market are present for every row iff present for some row. |
| Scoring.FilledMaxima | main.py:57-60 | Filling does not change the maximum of days on market or of price. |
| Scoring.FilledWithinColumn | main.py:57 | A filled days-on-market value is at least some original value. |
| Scoring.InventoryFilledWithinColumn | main.py:55 | A filled inventory value is at least some original value. |
| Scoring.ScoreFormula | main.py:58-61 | With all values present and non-zero divisors, the score equals `0.4(1 - d/maxDom) + 0.4 h/(v+1) + 0.2(1 - p/maxPrice)` over the original maxima. |
| Scoring.ScoreBounds | main.py:58-61 | For non-negative data in which every price is present, some inventory is present, and the dom and price maxima are positive, every row has a score. The dom and price parts lie in [0,1]. The score lies between 0.4·demand and 0.4·demand + 0.6. |
| Scoring.TopPriceScoresZero | main.py:60 | With a non-zero maximum price, the most expensive code has a price score of exactly 0. |
| Scoring.SingleRowScore | main.py:53-62 | In a one-row batch with days on market d ≠ 0, inventory v ≠ -1 and price p ≠ 0 present (and homes sold h, or 0 when missing), the dom and price parts vanish and the score is 0.4·h/(v+1). |
| Scoring.DomMedianFillExample | main.py:57-58 | Days on market [10, 20, missing] fills the third with 15, whose dom score is 0.25. |
| Scoring.AbsentColumnStaysAbsent | main.py:57-61 | With days on market missing throughout, it stays missing and no row gets a score. |
| Ranking.ScoreGeTotalPreorder | main.py:142 | The descending score order, with missing scores last, is a total preorder. |
| Ranking.SortByScore | main.py:142 | The sort gives a permutation in non-increasing score order. |
| Ranking.TopPicks | main.py:140-142 | The ranking has at most five rows, in non-increasing score order. |
| Ranking.TopOfSorted | main.py:142 | For any score-sorted permutation of rows with distinct codes, the first five form min(5, n) rows. They have distinct codes, are sorted and are drawn from the input, and none scores below a row left out. |
| Ranking.TopPicksSpec | main.py:140-142 | The ranking of a batch has min(5, distinct codes) rows with distinct codes, sorted, drawn from the scored batch, and none below a row left out. |
| Ranking.TopPicksFirstIsBest | main.py:142 | The first ranked row scores no lower than any row of the batch. |
| Ranking.TopPicksFromData | main.py:140-142 | Every ranked code is the code of a loaded row. |
| Results.ToPercent | main.py:69-70 | Rescaling keeps every row's record and replaces its score by its percentage of the maximum. |
| Results.MaxScore | main.py:69 | The best score is absent iff no row has a score. Otherwise it is the score of some row, and no row scores higher. |
| Results.Percent | main.py:69-70 | The percentage is absent iff the score or the maximum is absent or the maximum is 0. The maximum itself maps to 100, and a score between 0 and a positive maximum maps into [0, 100]. |
| Results.PinApplies | main.py:73-76 | The centre is pinned iff a non-empty highlight code is given, no ranked row carries it, and the store holds a priced row for it. |
| Results.ShowResults | main.py:65-81 | The display never shows a code twice. Without a pin it has no more rows than the ranking. |
| Results.PinnedRows | main.py:75-78 | One row per priced stored row of the centre: the row filled within that batch of its own, carrying the centre code, with its batch score rescaled by the given maximum. |
| Results.PercentPreservesOrder | main.py:70 | With a positive maximum, rescaling preserves the order of any two scores, in both directions. |
| Results.TopHoldsMax | main.py:69 | The first row of a score-sorted ranking holds its best score. |
| Results.TopShowsHundred | main.py:69-70 | Whenever the best score is present and not zero, the first row of a sorted ranking shows exactly 100. |
| Results.PercentOfRanking | main.py:69-70 | For a sorted ranking with a positive best score, the rescaled ranking is still sorted, its first row shows exactly 100, and none shows more than 100. |
| Results.ShowResultsSpec | main.py:65-81 | With the centre pinned, the display is the first pinned row followed by the rescaled ranking; that row is the centre's first priced row, filled and scored within the batch of the centre's priced rows and divided by the ranking's best score (pre-pin maximum) times 100. Otherwise it is the rescaled ranking alone. Codes are distinct, and at most one row is added. |
| Results.ShowResultsPinned | main.py:73-81 | When the pin applies, the display is the first pinned row followed by the rescaled ranking. |
| Results.PinnedRowOrigin | main.py:73-81 | The pinned row is built from the first priced row the store holds for the centre, scored within the batch of all the centre's priced rows and rescaled by the ranking's best score. |
| Results.ShowResultsCentreAlreadyRanked | main.py:73 | A centre already in the ranking changes nothing: same display as with no highlight. |
| Queries.RegionQueryErrors | main.py:122-133 | A region type other than city/state (in any case) is rejected. Otherwise "no codes" is reported iff no directory row carries the label. |
| Queries.RegionQueryResult | main.py:122-143 | A successful region query shows at most five distinct codes. Each is the code of a matching directory row with a priced stored row. |
| Queries.RegionQuery | main.py:122-143 | The query fails with an invalid region type iff the lower-cased type is neither city nor state, and never fails for an unknown centre. On success it shows at most five distinct codes. |
| Queries.RegionQueryNoData | main.py:134-138 | For a city or state query whose region has codes, "no market data" is reported iff no stored row carries one of those codes with a price. Otherwise the query succeeds. |
| Queries.ProximityUnknownCentre | main.py:146-157 | The query fails with the padded code iff the directory lacks it, whatever the store holds. |
| Queries.ProximityQuery | main.py:146-157 | The query fails only for lack of market data or with the padded centre code. On success the shown codes are distinct. |
| Queries.NearbyZips | main.py:149 | The codes of the nearby rows, in order, each padded to five characters once more. |
| Queries.NearbyZipsPadded | main.py:149 | The nearby rows come from the padded directory, so padding their codes again leaves every code unchanged. |
| Queries.ProximityQueryNoData | main.py:149-153 | For a known centre, "no market data" is reported iff no stored row carries a nearby code with a price. Otherwise the query succeeds. |
| Queries.ShownZipcodes | main.py:65-81 | Every displayed code is a ranked code or the highlighted one. |
| Queries.ProximityQueryResult | main.py:146-157 | A successful proximity query shows at most six distinct codes. Every code other than the centre lies within the radius and has a priced stored row. The centre is shown whenever a priced row is stored for it. |
| Queries.CentreShown | main.py:73-79 | A highlighted code with a priced stored row is displayed. |

## Left out

- Reading `uszips.csv` and querying the SQLite store: the directory and the store are parameters (sequences), and the column renaming is the field layout of `Record`.
- The geodesic distance (geopy): it is the parameter `dist`, in miles.
- Drawing the bar chart, its colours and the text tables: presentation only.
- The interactive loop (`cli_loop`): only its radius rule is modelled (`ZipCodes.ParseRadius`). The messages reported on each early return become `QueryError` values.
- The `except Exception` around the proximity query: only the missing-centre error is modelled (`ZipNotFound`). Database and plotting failures are outside the model.
- Floating point: values are reals. NaN and infinities are collapsed to an absent value: missing inputs, a maximum of 0, and `inventory + 1 == 0`. pandas would give ±inf for a non-zero value divided by 0, and +inf would sort first; the model sorts every such score last.
- Lower-casing and `isdigit` cover ASCII only. Unicode case mapping and Unicode digits are not modelled.
- The row order of the SQL result is taken to be store order.
- Ranking: the order among equal scores is that of one concrete sort. pandas' default sort is not stable, so only order-independent properties are stated.
- Missing city or state labels in the directory (NaN in pandas) are not modelled: labels are strings.
- `dbprinttest.py`, `tsv_scraper.py` and `uszips generator.py` are not part of this model. They are a database dump script and data-preparation scripts.
