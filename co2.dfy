/**
 * Queries over CO2 emissions per capita: entity lists, latest years,
 * single-value lookups, and the top emitters of a year. Restricting to
 * countries here means keeping the entities of a given country list.
 */
module Co2 {
  import opened Outcomes
  import opened Sorting
  import RowUtils
  import EntityUtils

  /** One (entity, year) data point, in tonnes per person. */
  datatype Co2Row = Co2Row(entity: string, year: int, valueTonnesPerCapita: real)

  function EntityOf(row: Co2Row): string { row.entity }

  function YearOf(row: Co2Row): int { row.year }

  /**
   * `_allowed_entity_set`: no restriction unless countries only were asked
   * for AND a country list is at hand; otherwise the names on that list.
   */
  function AllowedEntitySet(onlyCountries: bool, countryEntities: Option<seq<string>>): (allowed: Option<set<string>>)
    ensures allowed.None? <==> !onlyCountries || countryEntities.None?
    ensures allowed.Some? ==> forall e :: e in allowed.value <==> e in countryEntities.value
  {
    if !onlyCountries then None
    else if countryEntities.None? then None
    else Some(set e | e in countryEntities.value)
  }

  /** `row_allowed`: every row when there is no allowed set, else the rows of allowed entities. */
  function RowAllowed(allowed: Option<set<string>>): Option<Co2Row -> bool>
  {
    Some((row: Co2Row) => allowed.None? || row.entity in allowed.value)
  }

  /** The filter the queries use for the given options. */
  function Filter(onlyCountries: bool, countryEntities: Option<seq<string>>): Option<Co2Row -> bool>
  {
    RowAllowed(AllowedEntitySet(onlyCountries, countryEntities))
  }

  /** A row passes the filter exactly when no restriction applies or its entity is on the country list. */
  lemma FilterPasses(onlyCountries: bool, countryEntities: Option<seq<string>>, row: Co2Row)
    ensures RowUtils.Passes(Filter(onlyCountries, countryEntities), row)
            <==> !onlyCountries || countryEntities.None? || row.entity in countryEntities.value
  {
  }

  // ---------------------------------------------------------------- entities, latest_year*

  /** `entities(rows, only_countries, country_entities)`. */
  method Entities(rows: seq<Co2Row>, onlyCountries: bool, countryEntities: Option<seq<string>>) returns (names: seq<string>)
    ensures names == RowUtils.UniqueOf(rows, EntityOf, Filter(onlyCountries, countryEntities))
    ensures forall e :: e in names <==>
              (exists k :: 0 <= k < |rows| && rows[k].entity == e)
              && (!onlyCountries || countryEntities.None? || e in countryEntities.value)
  {
    names := RowUtils.UniqueEntities(rows, EntityOf, Filter(onlyCountries, countryEntities));
  }

  /** `latest_year_for_entity`: unlike the forest queries, over the allowed rows only. */
  method LatestYearForEntity(rows: seq<Co2Row>, entity: string, onlyCountries: bool, countryEntities: Option<seq<string>>)
    returns (r: Result<int>)
    ensures r == match RowUtils.LatestOf(rows, YearOf, RowUtils.ForEntity(Filter(onlyCountries, countryEntities), EntityOf, entity))
                 case Some(y) => Ok(y)
                 case None => Err(NoEntityData(entity))
  {
    r := RowUtils.LatestYearForEntity(rows, EntityOf, YearOf, Filter(onlyCountries, countryEntities), entity);
  }

  /** An entity left off the country list has no latest year, even when it has rows. */
  lemma LatestYearForExcludedEntity(rows: seq<Co2Row>, entity: string, countryEntities: seq<string>)
    requires entity !in countryEntities
    ensures RowUtils.LatestOf(rows, YearOf, RowUtils.ForEntity(Filter(true, Some(countryEntities)), EntityOf, entity)).None?
  {
    RowUtils.LatestForEntityMissing(rows, EntityOf, YearOf, Filter(true, Some(countryEntities)), entity);
  }

  /** `latest_year(rows, only_countries, country_entities)`. */
  method LatestYear(rows: seq<Co2Row>, onlyCountries: bool, countryEntities: Option<seq<string>>) returns (r: Result<int>)
    ensures r.Err? <==> forall k :: 0 <= k < |rows| ==> !RowUtils.Passes(Filter(onlyCountries, countryEntities), rows[k])
    ensures r.Err? ==> r.error == NoDataAvailable
    ensures r.Ok? ==> RowUtils.IsLatest(rows, YearOf, Filter(onlyCountries, countryEntities), r.value)
  {
    r := RowUtils.LatestYear(rows, YearOf, Filter(onlyCountries, countryEntities));
  }

  // ---------------------------------------------------------------- value_for_entity_year

  /**
   * The entity name and year a query stands for: the matched label among the
   * allowed entities, and the given year or else that entity's latest year
   * among the allowed rows.
   */
  function Resolve(rows: seq<Co2Row>, query: string, year: Option<int>, onlyCountries: bool,
                   countryEntities: Option<seq<string>>, similarity: EntityUtils.Similarity): Result<(string, int)>
  {
    match EntityUtils.MatchEntityName(query, RowUtils.UniqueOf(rows, EntityOf, Filter(onlyCountries, countryEntities)), similarity)
    case Err(e) => Err(e)
    case Ok(name) =>
      if year.Some? then Ok((name, year.value))
      else match RowUtils.LatestOf(rows, YearOf, RowUtils.ForEntity(Filter(onlyCountries, countryEntities), EntityOf, name))
        case None => Err(NoEntityData(name))
        case Some(y) => Ok((name, y))
  }

  /** A query with the key of some allowed row's entity resolves: the matched name has a row, so a default year exists. */
  lemma ResolvedNameHasYear(rows: seq<Co2Row>, query: string, onlyCountries: bool, countryEntities: Option<seq<string>>,
                            similarity: EntityUtils.Similarity, k: nat)
    requires k < |rows| && (!onlyCountries || countryEntities.None? || rows[k].entity in countryEntities.value)
    requires EntityUtils.Normalize(rows[k].entity) == EntityUtils.Normalize(query)
    ensures Resolve(rows, query, None, onlyCountries, countryEntities, similarity).Ok?
  {
    var filter := Filter(onlyCountries, countryEntities);
    var names := RowUtils.UniqueOf(rows, EntityOf, filter);
    FilterPasses(onlyCountries, countryEntities, rows[k]);
    assert EntityOf(rows[k]) == rows[k].entity;
    RowUtils.UniqueOfMembers(rows, EntityOf, filter, rows[k].entity);
    var i :| 0 <= i < |names| && names[i] == rows[k].entity;
    var name := EntityUtils.MatchEntityName(query, names, similarity).value;
    RowUtils.UniqueOfMembers(rows, EntityOf, filter, name);
    RowUtils.LatestForEntityMissing(rows, EntityOf, YearOf, filter, name);
  }

  /** The name matching and default-year steps of `value_for_entity_year`. */
  method ResolveQuery(rows: seq<Co2Row>, query: string, year: Option<int>, onlyCountries: bool,
                      countryEntities: Option<seq<string>>, similarity: EntityUtils.Similarity)
    returns (r: Result<(string, int)>)
    ensures r == Resolve(rows, query, year, onlyCountries, countryEntities, similarity)
  {
    var names := Entities(rows, onlyCountries, countryEntities);
    var matched := EntityUtils.MatchEntityName(query, names, similarity);
    if matched.Err? {
      return Err(matched.error);
    }
    var name := matched.value;
    if year.Some? {
      return Ok((name, year.value));
    }
    var latest := LatestYearForEntity(rows, name, onlyCountries, countryEntities);
    if latest.Err? {
      return Err(latest.error);
    }
    return Ok((name, latest.value));
  }

  /** `k` is the first row, in load order, with this entity and year. */
  predicate FirstRowFor(rows: seq<Co2Row>, entity: string, year: int, k: int)
  {
    && 0 <= k < |rows| && rows[k].entity == entity && rows[k].year == year
    && forall m :: 0 <= m < k ==> !(rows[m].entity == entity && rows[m].year == year)
  }

  /** What the row scan of `value_for_entity_year` returns for a resolved name and year. */
  ghost predicate ValueOutcome(rows: seq<Co2Row>, name: string, y: int, r: Result<(string, int, real)>)
  {
    && (r.Ok? <==> exists k :: 0 <= k < |rows| && rows[k].entity == name && rows[k].year == y)
    && (r.Ok? ==> r.value.0 == name && r.value.1 == y
                  && exists k :: FirstRowFor(rows, name, y, k) && r.value.2 == rows[k].valueTonnesPerCapita)
    && (r.Err? ==> r.error == NoEntityYearData(name, y))
  }

  /** The scan for the first row with the resolved name and year. */
  method FirstValue(rows: seq<Co2Row>, name: string, y: int) returns (r: Result<(string, int, real)>)
    ensures ValueOutcome(rows, name, y, r)
  {
    for i := 0 to |rows|
      invariant forall m :: 0 <= m < i ==> !(rows[m].entity == name && rows[m].year == y)
    {
      if rows[i].entity == name && rows[i].year == y {
        assert FirstRowFor(rows, name, y, i);
        return Ok((name, y, rows[i].valueTonnesPerCapita));
      }
    }
    return Err(NoEntityYearData(name, y));
  }

  /** `value_for_entity_year`: resolve the name and year, then return the value of the first row with both. */
  method ValueForEntityYear(rows: seq<Co2Row>, query: string, year: Option<int>, onlyCountries: bool,
                            countryEntities: Option<seq<string>>, similarity: EntityUtils.Similarity)
    returns (r: Result<(string, int, real)>)
    ensures Resolve(rows, query, year, onlyCountries, countryEntities, similarity).Err? ==>
              r == Err(Resolve(rows, query, year, onlyCountries, countryEntities, similarity).error)
    ensures Resolve(rows, query, year, onlyCountries, countryEntities, similarity).Ok? ==>
              ValueOutcome(rows, Resolve(rows, query, year, onlyCountries, countryEntities, similarity).value.0,
                           Resolve(rows, query, year, onlyCountries, countryEntities, similarity).value.1, r)
  {
    var resolved := ResolveQuery(rows, query, year, onlyCountries, countryEntities, similarity);
    if resolved.Err? {
      return Err(resolved.error);
    }
    r := FirstValue(rows, resolved.value.0, resolved.value.1);
  }

  // ---------------------------------------------------------------- top_emitters

  /** The rows of `year` whose entity is allowed, in load order. */
  function YearSelection(rows: seq<Co2Row>, year: int, allowed: Option<set<string>>): seq<Co2Row>
  {
    if |rows| == 0 then []
    else
      var init, row := rows[..|rows| - 1], rows[|rows| - 1];
      YearSelection(init, year, allowed)
        + if row.year == year && (allowed.None? || row.entity in allowed.value) then [row] else []
  }

  /** The selection holds each allowed row of the year, as often as `rows` does, and no other row. */
  lemma {:induction false} YearSelectionCounts(rows: seq<Co2Row>, year: int, allowed: Option<set<string>>, row: Co2Row)
    ensures multiset(YearSelection(rows, year, allowed))[row]
              == if row.year == year && (allowed.None? || row.entity in allowed.value) then multiset(rows)[row] else 0
  {
    if |rows| > 0 {
      var init, last := rows[..|rows| - 1], rows[|rows| - 1];
      YearSelectionCounts(init, year, allowed, row);
      assert rows == init + [last];
      assert multiset(rows) == multiset(init) + multiset{last};
      assert YearSelection(rows, year, allowed)
          == YearSelection(init, year, allowed) + if last.year == year && (allowed.None? || last.entity in allowed.value) then [last] else [];
    }
  }

  /** The sort key `(value_tonnes_per_capita, entity)`. */
  function ValueKey(row: Co2Row): SortKey
  {
    SortKey(row.valueTonnesPerCapita, row.entity)
  }

  /** The year's allowed rows, highest emissions first (ties: the larger entity name first). */
  function RankedRows(rows: seq<Co2Row>, year: int, allowed: Option<set<string>>): (ranked: seq<Co2Row>)
    ensures multiset(ranked) == multiset(YearSelection(rows, year, allowed))
    ensures Sorted(ranked, ValueKey, true)
  {
    SortByPermutes(YearSelection(rows, year, allowed), ValueKey, true);
    SortBySorted(YearSelection(rows, year, allowed), ValueKey, true);
    SortBy(YearSelection(rows, year, allowed), ValueKey, true)
  }

  /** Rows with equal keys keep their load order. */
  lemma RankedRowsStable(rows: seq<Co2Row>, year: int, allowed: Option<set<string>>, k: SortKey)
    ensures WithKey(RankedRows(rows, year, allowed), ValueKey, k) == WithKey(YearSelection(rows, year, allowed), ValueKey, k)
  {
    SortByStable(YearSelection(rows, year, allowed), ValueKey, true, k);
  }

  /** The `(entity, value)` pair reported for a row. */
  function Pair(row: Co2Row): (string, real)
  {
    (row.entity, row.valueTonnesPerCapita)
  }

  /** The reported pairs are ordered by emissions, highest first, ties by the larger entity name. */
  lemma PairsRanked(ranked: seq<Co2Row>, pairs: seq<(string, real)>)
    requires Sorted(ranked, ValueKey, true)
    requires |pairs| <= |ranked| && forall i :: 0 <= i < |pairs| ==> pairs[i] == Pair(ranked[i])
    ensures forall i, j :: 0 <= i < j < |pairs| ==> pairs[i].1 >= pairs[j].1
    ensures forall i, j :: 0 <= i < j < |pairs| && pairs[i].1 == pairs[j].1 ==> !StrLess(pairs[i].0, pairs[j].0)
  {
  }

  /**
   * `top_emitters`: select the year's allowed rows, fail when there are none,
   * sort them highest first, and report the pairs of `sorted[:top_n]`.
   */
  method TopEmitters(rows: seq<Co2Row>, year: int, topN: int, onlyCountries: bool, countryEntities: Option<seq<string>>)
    returns (r: Result<seq<(string, real)>>)
    ensures var sel := YearSelection(rows, year, AllowedEntitySet(onlyCountries, countryEntities));
            r.Err? <==> |sel| == 0
    ensures r.Err? ==> r.error == NoYearData(year)
    ensures r.Ok? ==>
              var ranked := RankedRows(rows, year, AllowedEntitySet(onlyCountries, countryEntities));
              && |r.value| == |TakePrefix(ranked, topN)|
              && forall i :: 0 <= i < |r.value| ==> r.value[i] == Pair(ranked[i])
  {
    var allowed := AllowedEntitySet(onlyCountries, countryEntities);
    var yearRows := YearRows(rows, year, allowed);
    if |yearRows| == 0 {
      return Err(NoYearData(year));
    }
    var sorted := SortBy(yearRows, ValueKey, true);
    var results := PairsOf(TakePrefix(sorted, topN));
    return Ok(results);
  }

  /** The selection loop of `top_emitters`: the year's allowed rows, in load order. */
  method YearRows(rows: seq<Co2Row>, year: int, allowed: Option<set<string>>) returns (yearRows: seq<Co2Row>)
    ensures yearRows == YearSelection(rows, year, allowed)
  {
    yearRows := [];
    for i := 0 to |rows|
      invariant yearRows == YearSelection(rows[..i], year, allowed)
    {
      assert rows[..i + 1][..i] == rows[..i];
      var row := rows[i];
      if row.year != year {
        continue;
      }
      if allowed.Some? && row.entity !in allowed.value {
        continue;
      }
      yearRows := yearRows + [row];
    }
    assert rows[..|rows|] == rows;
  }

  /** The result loop of `top_emitters`: one `(entity, value)` pair per row, in order. */
  method PairsOf(top: seq<Co2Row>) returns (results: seq<(string, real)>)
    ensures |results| == |top|
    ensures forall j :: 0 <= j < |top| ==> results[j] == Pair(top[j])
  {
    results := [];
    for i := 0 to |top|
      invariant |results| == i
      invariant forall j :: 0 <= j < i ==> results[j] == Pair(top[j])
    {
      results := results + [(top[i].entity, top[i].valueTonnesPerCapita)];
    }
  }

  // ---------------------------------------------------------------- two emitters in one year

  /** The two rows in either input order: the lower emitter `a` first, or `b` first when `swapped`. */
  function TwoRows(a: Co2Row, b: Co2Row, swapped: bool): seq<Co2Row>
  {
    if swapped then [b, a] else [a, b]
  }

  /** Two rows of the year, with no country filter, are both selected, in order. */
  lemma TwoRowSelection(first: Co2Row, second: Co2Row, y: int)
    requires first.year == y && second.year == y
    ensures YearSelection([first, second], y, None) == [first, second]
  {
    var rows := [first, second];
    assert rows[..1] == [first];
    assert rows[..1][..0] == [];
    assert YearSelection(rows[..1], y, None) == [first];
  }

  /** Whichever of the two rows is listed first, the higher emitter sorts first. */
  lemma TwoRowOrder(a: Co2Row, b: Co2Row, y: int, swapped: bool)
    requires a.year == y && b.year == y && a.valueTonnesPerCapita < b.valueTonnesPerCapita
    ensures YearSelection(TwoRows(a, b, swapped), y, None) == TwoRows(a, b, swapped)
    ensures RankedRows(TwoRows(a, b, swapped), y, None) == [b, a]
  {
    var rows := TwoRows(a, b, swapped);
    var first, second := rows[0], rows[1];
    assert rows == [first, second];
    TwoRowSelection(first, second, y);
    assert rows[..1] == [first];
    assert SortBy(rows[..1], ValueKey, true) == [first];
    assert SortBy(rows, ValueKey, true) == Insert(second, [first], ValueKey, true);
    if swapped {
      assert !Before(ValueKey, true, a, b);
    } else {
      assert Before(ValueKey, true, b, a);
    }
  }

  /** Whichever of the two rows is listed first, the higher emitter heads the top two. */
  method TwoRowTop(a: Co2Row, b: Co2Row, y: int, swapped: bool) returns (top: Result<seq<(string, real)>>)
    requires a.year == y && b.year == y && a.valueTonnesPerCapita < b.valueTonnesPerCapita
    ensures top == Ok([Pair(b), Pair(a)])
  {
    TwoRowOrder(a, b, y, swapped);
    var rows := TwoRows(a, b, swapped);
    assert AllowedEntitySet(false, None) == None;
    top := TopEmitters(rows, y, 2, false, None);
    assert top.Ok?;
    var ranked := RankedRows(rows, y, None);
    assert ranked == [b, a];
    assert |TakePrefix(ranked, 2)| == 2;
    assert |top.value| == 2 && top.value[0] == Pair(b) && top.value[1] == Pair(a);
    assert top.value == [Pair(b), Pair(a)];
  }

  /** Bahrain (25.23751 t) and Qatar (36.145443 t) in 2020: Qatar, then Bahrain. */
  method QatarBahrain2020() returns (top: Result<seq<(string, real)>>)
    ensures top == Ok([("Qatar", 36.145443), ("Bahrain", 25.23751)])
  {
    top := TwoRowTop(Co2Row("Bahrain", 2020, 25.23751), Co2Row("Qatar", 2020, 36.145443), 2020, false);
  }
}
