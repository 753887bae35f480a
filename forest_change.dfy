/**
 * Queries over the annual change in forest area: the country test, entity
 * lists, latest years, single-value lookups, and rankings by net change.
 */
module ForestChange {
  import opened Outcomes
  import opened Sorting
  import RowUtils
  import EntityUtils

  /** One (entity, year) data point; `valueHa` is the net change in hectares. */
  datatype ForestChangeRow = ForestChangeRow(entity: string, code: string, year: int, valueHa: real)

  function EntityOf(row: ForestChangeRow): string { row.entity }

  function YearOf(row: ForestChangeRow): int { row.year }

  // ---------------------------------------------------------------- is_country_row

  /** `str.isalpha()` on ASCII text: non-empty and made of letters only. */
  predicate IsAlpha(s: string)
  {
    |s| > 0 && forall i :: 0 <= i < |s| ==> 'A' <= s[i] <= 'Z' || 'a' <= s[i] <= 'z'
  }

  /** `str.isupper()` on ASCII text: some upper-case letter and no lower-case one. */
  predicate IsUpper(s: string)
  {
    (exists i :: 0 <= i < |s| && 'A' <= s[i] <= 'Z') && forall i :: 0 <= i < |s| ==> !('a' <= s[i] <= 'z')
  }

  /** `is_country_row`: the code is three characters, alphabetic and upper case. */
  predicate IsCountryRow(row: ForestChangeRow)
  {
    |row.code| == 3 && IsAlpha(row.code) && IsUpper(row.code)
  }

  /** A country row is one whose code is exactly three letters `A`-`Z`. */
  lemma IsCountryRowIff(row: ForestChangeRow)
    ensures IsCountryRow(row) <==> |row.code| == 3 && forall i :: 0 <= i < 3 ==> 'A' <= row.code[i] <= 'Z'
  {
    if |row.code| == 3 && forall i :: 0 <= i < 3 ==> 'A' <= row.code[i] <= 'Z' {
      assert 'A' <= row.code[0] <= 'Z';
    }
  }

  /** The row filter of every forest query: all rows, or only country rows. */
  function CountryFilter(onlyCountries: bool): Option<ForestChangeRow -> bool>
  {
    Some(row => !onlyCountries || IsCountryRow(row))
  }

  // ---------------------------------------------------------------- entities, latest_year*

  /** `entities(rows, only_countries)`. */
  method Entities(rows: seq<ForestChangeRow>, onlyCountries: bool) returns (names: seq<string>)
    ensures names == RowUtils.UniqueOf(rows, EntityOf, CountryFilter(onlyCountries))
    ensures forall e :: e in names <==> exists k :: 0 <= k < |rows| && rows[k].entity == e && (!onlyCountries || IsCountryRow(rows[k]))
  {
    names := RowUtils.UniqueEntities(rows, EntityOf, CountryFilter(onlyCountries));
  }

  /** Without the country restriction the entity list is `unique_entities` of all rows. */
  lemma EntitiesOfAllRows(rows: seq<ForestChangeRow>)
    ensures RowUtils.UniqueOf(rows, EntityOf, CountryFilter(false)) == RowUtils.UniqueOf(rows, EntityOf, None)
  {
    RowUtils.SameFilterSameAnswers(rows, EntityOf, YearOf, CountryFilter(false), None);
  }

  /** With it, every listed name is the entity of some country row. */
  lemma EntitiesOfCountryRows(rows: seq<ForestChangeRow>, e: string)
    requires e in RowUtils.UniqueOf(rows, EntityOf, CountryFilter(true))
    ensures exists k :: 0 <= k < |rows| && rows[k].entity == e && IsCountryRow(rows[k])
  {
    RowUtils.UniqueOfMembers(rows, EntityOf, CountryFilter(true), e);
  }

  /** `latest_year_for_entity(rows, entity)`: over all rows, with no country filter. */
  method LatestYearForEntity(rows: seq<ForestChangeRow>, entity: string) returns (r: Result<int>)
    ensures r == match RowUtils.LatestOf(rows, YearOf, RowUtils.ForEntity(None, EntityOf, entity))
                 case Some(y) => Ok(y)
                 case None => Err(NoEntityData(entity))
  {
    r := RowUtils.LatestYearForEntity(rows, EntityOf, YearOf, None, entity);
  }

  /** `latest_year(rows, only_countries)`. */
  method LatestYear(rows: seq<ForestChangeRow>, onlyCountries: bool) returns (r: Result<int>)
    ensures r.Err? <==> forall k :: 0 <= k < |rows| ==> onlyCountries && !IsCountryRow(rows[k])
    ensures r.Err? ==> r.error == NoDataAvailable
    ensures r.Ok? ==> RowUtils.IsLatest(rows, YearOf, CountryFilter(onlyCountries), r.value)
  {
    r := RowUtils.LatestYear(rows, YearOf, CountryFilter(onlyCountries));
    ghost var latest := RowUtils.LatestOf(rows, YearOf, CountryFilter(onlyCountries));
    assert forall k :: 0 <= k < |rows| ==> (RowUtils.Passes(CountryFilter(onlyCountries), rows[k]) <==> !onlyCountries || IsCountryRow(rows[k]));
  }

  // ---------------------------------------------------------------- value_for_entity_year

  /**
   * The entity name and year a query stands for: the matched label among
   * `entities(rows, only_countries)`, and the given year or else that
   * entity's latest year over ALL rows.
   */
  function Resolve(rows: seq<ForestChangeRow>, query: string, year: Option<int>, onlyCountries: bool,
                   similarity: EntityUtils.Similarity): Result<(string, int)>
  {
    match EntityUtils.MatchEntityName(query, RowUtils.UniqueOf(rows, EntityOf, CountryFilter(onlyCountries)), similarity)
    case Err(e) => Err(e)
    case Ok(name) =>
      if year.Some? then Ok((name, year.value))
      else match RowUtils.LatestOf(rows, YearOf, RowUtils.ForEntity(None, EntityOf, name))
        case None => Err(NoEntityData(name))
        case Some(y) => Ok((name, y))
  }

  /** The name matching and default-year steps shared by the single-entity queries. */
  method ResolveQuery(rows: seq<ForestChangeRow>, query: string, year: Option<int>, onlyCountries: bool,
                      similarity: EntityUtils.Similarity)
    returns (r: Result<(string, int)>)
    ensures r == Resolve(rows, query, year, onlyCountries, similarity)
  {
    var names := Entities(rows, onlyCountries);
    var matched := EntityUtils.MatchEntityName(query, names, similarity);
    if matched.Err? {
      return Err(matched.error);
    }
    var name := matched.value;
    if year.Some? {
      return Ok((name, year.value));
    }
    var latest := LatestYearForEntity(rows, name);
    if latest.Err? {
      return Err(latest.error);
    }
    return Ok((name, latest.value));
  }

  /** `k` is the first row, in load order, with this entity and year. */
  predicate FirstRowFor(rows: seq<ForestChangeRow>, entity: string, year: int, k: int)
  {
    && 0 <= k < |rows| && rows[k].entity == entity && rows[k].year == year
    && forall m :: 0 <= m < k ==> !(rows[m].entity == entity && rows[m].year == year)
  }

  /** A query with the key of some allowed row's entity resolves: the matched name has a row, so a default year exists. */
  lemma ResolvedNameHasYear(rows: seq<ForestChangeRow>, query: string, onlyCountries: bool, similarity: EntityUtils.Similarity, k: nat)
    requires k < |rows| && (!onlyCountries || IsCountryRow(rows[k]))
    requires EntityUtils.Normalize(rows[k].entity) == EntityUtils.Normalize(query)
    ensures Resolve(rows, query, None, onlyCountries, similarity).Ok?
  {
    var filter := CountryFilter(onlyCountries);
    var names := RowUtils.UniqueOf(rows, EntityOf, filter);
    assert RowUtils.Passes(filter, rows[k]) && EntityOf(rows[k]) == rows[k].entity;
    RowUtils.UniqueOfMembers(rows, EntityOf, filter, rows[k].entity);
    var i :| 0 <= i < |names| && names[i] == rows[k].entity;
    var name := EntityUtils.MatchEntityName(query, names, similarity).value;
    RowUtils.UniqueOfMembers(rows, EntityOf, filter, name);
    RowUtils.LatestForEntityMissing(rows, EntityOf, YearOf, None, name);
  }

  /** What the row scan of `value_for_entity_year` returns for a resolved name and year. */
  ghost predicate ValueOutcome(rows: seq<ForestChangeRow>, name: string, y: int, r: Result<(string, int, real)>)
  {
    && (r.Ok? <==> exists k :: 0 <= k < |rows| && rows[k].entity == name && rows[k].year == y)
    && (r.Ok? ==> r.value.0 == name && r.value.1 == y
                  && exists k :: FirstRowFor(rows, name, y, k) && r.value.2 == rows[k].valueHa)
    && (r.Err? ==> r.error == NoEntityYearData(name, y))
  }

  /** The scan for the first row with the resolved name and year. */
  method FirstValue(rows: seq<ForestChangeRow>, name: string, y: int) returns (r: Result<(string, int, real)>)
    ensures ValueOutcome(rows, name, y, r)
  {
    for i := 0 to |rows|
      invariant forall m :: 0 <= m < i ==> !(rows[m].entity == name && rows[m].year == y)
    {
      if rows[i].entity == name && rows[i].year == y {
        assert FirstRowFor(rows, name, y, i);
        return Ok((name, y, rows[i].valueHa));
      }
    }
    return Err(NoEntityYearData(name, y));
  }

  /**
   * `value_for_entity_year`: resolve the name and year, then return the value
   * of the first row with both, whether or not that row passes the country filter.
   */
  method ValueForEntityYear(rows: seq<ForestChangeRow>, query: string, year: Option<int>, onlyCountries: bool,
                            similarity: EntityUtils.Similarity)
    returns (r: Result<(string, int, real)>)
    ensures Resolve(rows, query, year, onlyCountries, similarity).Err? ==>
              r == Err(Resolve(rows, query, year, onlyCountries, similarity).error)
    ensures Resolve(rows, query, year, onlyCountries, similarity).Ok? ==>
              ValueOutcome(rows, Resolve(rows, query, year, onlyCountries, similarity).value.0,
                           Resolve(rows, query, year, onlyCountries, similarity).value.1, r)
  {
    var resolved := ResolveQuery(rows, query, year, onlyCountries, similarity);
    if resolved.Err? {
      return Err(resolved.error);
    }
    r := FirstValue(rows, resolved.value.0, resolved.value.1);
  }

  // ---------------------------------------------------------------- _year_rows, count_entities_for_year

  /** The rows of `year` that pass the country filter, in load order. */
  function YearSelection(rows: seq<ForestChangeRow>, year: int, onlyCountries: bool): seq<ForestChangeRow>
  {
    if |rows| == 0 then []
    else
      var init, row := rows[..|rows| - 1], rows[|rows| - 1];
      assert rows == init + [row];
      YearSelection(init, year, onlyCountries)
        + if row.year == year && (!onlyCountries || IsCountryRow(row)) then [row] else []
  }

  /** The selection holds each row of the year that passes the filter, as often as `rows` does, and no other row. */
  lemma {:induction false} YearSelectionCounts(rows: seq<ForestChangeRow>, year: int, onlyCountries: bool, row: ForestChangeRow)
    ensures multiset(YearSelection(rows, year, onlyCountries))[row]
              == if row.year == year && (!onlyCountries || IsCountryRow(row)) then multiset(rows)[row] else 0
  {
    if |rows| > 0 {
      var init, last := rows[..|rows| - 1], rows[|rows| - 1];
      YearSelectionCounts(init, year, onlyCountries, row);
      assert rows == init + [last];
      assert multiset(rows) == multiset(init) + multiset{last};
      assert YearSelection(rows, year, onlyCountries)
          == YearSelection(init, year, onlyCountries) + if last.year == year && (!onlyCountries || IsCountryRow(last)) then [last] else [];
    }
  }

  /** `_year_rows(rows, year, only_countries)`: the loop appending to `year_rows`. */
  method YearRows(rows: seq<ForestChangeRow>, year: int, onlyCountries: bool) returns (yearRows: seq<ForestChangeRow>)
    ensures yearRows == YearSelection(rows, year, onlyCountries)
  {
    yearRows := [];
    for i := 0 to |rows|
      invariant yearRows == YearSelection(rows[..i], year, onlyCountries)
    {
      assert rows[..i + 1][..i] == rows[..i];
      var row := rows[i];
      if row.year != year {
        continue;
      }
      if onlyCountries && !IsCountryRow(row) {
        continue;
      }
      yearRows := yearRows + [row];
    }
    assert rows[..|rows|] == rows;
  }

  /** `count_entities_for_year`: how many rows the year selection holds. */
  method CountEntitiesForYear(rows: seq<ForestChangeRow>, year: int, onlyCountries: bool) returns (n: nat)
    ensures n == |YearSelection(rows, year, onlyCountries)|
  {
    var yearRows := YearRows(rows, year, onlyCountries);
    n := |yearRows|;
  }

  // ---------------------------------------------------------------- _sorted_year_rows

  /** The sort key `(value_ha, entity)`. */
  function ValueKey(row: ForestChangeRow): SortKey
  {
    SortKey(row.valueHa, row.entity)
  }

  predicate ValidOrder(order: string)
  {
    order == "loss" || order == "gain"
  }

  /**
   * `_sorted_year_rows`: the order is checked before any row is looked at; then
   * the year selection, which must be non-empty, sorted by `(value, entity)`
   * ascending for "loss" (largest loss first) and descending for "gain".
   */
  function SortedYearRows(rows: seq<ForestChangeRow>, year: int, order: string, onlyCountries: bool)
    : (r: Result<seq<ForestChangeRow>>)
    ensures !ValidOrder(order) ==> r == Err(InvalidOrder)
    ensures ValidOrder(order) && |YearSelection(rows, year, onlyCountries)| == 0 ==> r == Err(NoYearData(year))
    ensures ValidOrder(order) && |YearSelection(rows, year, onlyCountries)| > 0 ==>
              && r.Ok?
              && multiset(r.value) == multiset(YearSelection(rows, year, onlyCountries))
              && Sorted(r.value, ValueKey, order == "gain")
  {
    if !ValidOrder(order) then Err(InvalidOrder)
    else
      var yearRows := YearSelection(rows, year, onlyCountries);
      if |yearRows| == 0 then Err(NoYearData(year))
      else
        SortByPermutes(yearRows, ValueKey, order == "gain");
        SortBySorted(yearRows, ValueKey, order == "gain");
        Ok(SortBy(yearRows, ValueKey, order == "gain"))
  }

  /** Rows with equal `(value, entity)` keep their load order (Python's sort is stable, also reversed). */
  lemma SortedYearRowsStable(rows: seq<ForestChangeRow>, year: int, order: string, onlyCountries: bool, k: SortKey)
    requires SortedYearRows(rows, year, order, onlyCountries).Ok?
    ensures WithKey(SortedYearRows(rows, year, order, onlyCountries).value, ValueKey, k)
         == WithKey(YearSelection(rows, year, onlyCountries), ValueKey, k)
  {
    SortByStable(YearSelection(rows, year, onlyCountries), ValueKey, order == "gain", k);
  }

  lemma SortedYearRowsLength(rows: seq<ForestChangeRow>, year: int, order: string, onlyCountries: bool)
    ensures SortedYearRows(rows, year, order, onlyCountries).Ok? ==>
              |SortedYearRows(rows, year, order, onlyCountries).value| == |YearSelection(rows, year, onlyCountries)|
  {
    SortByLength(YearSelection(rows, year, onlyCountries), ValueKey, order == "gain");
  }

  // ---------------------------------------------------------------- rank_entities

  /** The `(entity, value_ha)` pair reported for a row. */
  function Pair(row: ForestChangeRow): (string, real)
  {
    (row.entity, row.valueHa)
  }

  /**
   * `rank_entities`: the `(entity, value)` pairs of `sorted_rows[:top_n]`, so
   * `min(top_n, count)` of them for a non-negative `top_n`.
   */
  method RankEntities(rows: seq<ForestChangeRow>, year: int, order: string, topN: int, onlyCountries: bool)
    returns (r: Result<seq<(string, real)>>)
    ensures SortedYearRows(rows, year, order, onlyCountries).Err? ==>
              r == Err(SortedYearRows(rows, year, order, onlyCountries).error)
    ensures SortedYearRows(rows, year, order, onlyCountries).Ok? ==>
              var sorted := SortedYearRows(rows, year, order, onlyCountries).value;
              && r.Ok?
              && |r.value| == |TakePrefix(sorted, topN)|
              && forall i :: 0 <= i < |r.value| ==> r.value[i] == Pair(sorted[i])
  {
    var sorted := SortedYearRows(rows, year, order, onlyCountries);
    if sorted.Err? {
      return Err(sorted.error);
    }
    var top := TakePrefix(sorted.value, topN);
    var results: seq<(string, real)> := [];
    for i := 0 to |top|
      invariant |results| == i
      invariant forall j :: 0 <= j < i ==> results[j] == Pair(top[j])
    {
      results := results + [(top[i].entity, top[i].valueHa)];
    }
    return Ok(results);
  }

  // ---------------------------------------------------------------- rank_for_entity

  /** What the rank scan of `rank_for_entity` returns for a resolved name and year. */
  predicate RankOutcome(sorted: seq<ForestChangeRow>, name: string, y: int, r: Result<(string, int, int, real)>)
  {
    && (r.Ok? <==> exists k :: 0 <= k < |sorted| && sorted[k].entity == name)
    && (r.Err? ==> r.error == NoEntityYearData(name, y))
    && (r.Ok? ==>
          var rank := r.value.2;
          && r.value.0 == name && r.value.1 == y
          && 1 <= rank <= |sorted|
          && sorted[rank - 1].entity == name
          && r.value.3 == sorted[rank - 1].valueHa
          && forall k :: 0 <= k < rank - 1 ==> sorted[k].entity != name)
  }

  /** The `enumerate(sorted_rows, start=1)` scan for the first row with the resolved name. */
  method FindRank(sorted: seq<ForestChangeRow>, name: string, y: int) returns (r: Result<(string, int, int, real)>)
    ensures RankOutcome(sorted, name, y, r)
  {
    for idx := 0 to |sorted|
      invariant forall k :: 0 <= k < idx ==> sorted[k].entity != name
    {
      if sorted[idx].entity == name {
        return Ok((name, y, idx + 1, sorted[idx].valueHa));
      }
    }
    return Err(NoEntityYearData(name, y));
  }

  /** The rank says how many rows are ahead: exactly `rank - 1` rows sort strictly before the ranked one. */
  lemma RankCountsRowsAhead(rows: seq<ForestChangeRow>, y: int, order: string, onlyCountries: bool,
                            name: string, r: Result<(string, int, int, real)>, k: int)
    requires SortedYearRows(rows, y, order, onlyCountries).Ok?
    requires RankOutcome(SortedYearRows(rows, y, order, onlyCountries).value, name, y, r) && r.Ok?
    requires 0 <= k < |SortedYearRows(rows, y, order, onlyCountries).value|
    ensures var s := SortedYearRows(rows, y, order, onlyCountries).value;
            Before(ValueKey, order == "gain", s[k], s[r.value.2 - 1]) <==> k < r.value.2 - 1
  {
    var s := SortedYearRows(rows, y, order, onlyCountries).value;
    var p := r.value.2 - 1;
    if k < p {
      assert s[k].entity != name;
      BeforeTotal(ValueKey, order == "gain", s[k], s[p]);
    } else if k == p {
      BeforeIrreflexive(ValueKey, order == "gain", s[p]);
    }
  }

  /**
   * `rank_for_entity`: resolve the name and year, sort that year's rows, and
   * report the 1-based position of the first row with the resolved name.
   */
  method RankForEntity(rows: seq<ForestChangeRow>, query: string, year: Option<int>, order: string, onlyCountries: bool,
                       similarity: EntityUtils.Similarity)
    returns (r: Result<(string, int, int, real)>)
    ensures Resolve(rows, query, year, onlyCountries, similarity).Err? ==>
              r == Err(Resolve(rows, query, year, onlyCountries, similarity).error)
    ensures Resolve(rows, query, year, onlyCountries, similarity).Ok? ==>
              var name := Resolve(rows, query, year, onlyCountries, similarity).value.0;
              var y := Resolve(rows, query, year, onlyCountries, similarity).value.1;
              && (SortedYearRows(rows, y, order, onlyCountries).Err? ==> r == Err(SortedYearRows(rows, y, order, onlyCountries).error))
              && (SortedYearRows(rows, y, order, onlyCountries).Ok? ==>
                    RankOutcome(SortedYearRows(rows, y, order, onlyCountries).value, name, y, r))
  {
    var resolved := ResolveQuery(rows, query, year, onlyCountries, similarity);
    if resolved.Err? {
      return Err(resolved.error);
    }
    var name, yearUsed := resolved.value.0, resolved.value.1;
    var sorted := SortedYearRows(rows, yearUsed, order, onlyCountries);
    if sorted.Err? {
      return Err(sorted.error);
    }
    r := FindRank(sorted.value, name, yearUsed);
  }

  // ---------------------------------------------------------------- two countries in one year

  /** Two country rows of year `y` where `b` lost more forest than `a`. */
  predicate LargerLossFirst(b: ForestChangeRow, a: ForestChangeRow, y: int)
  {
    IsCountryRow(b) && IsCountryRow(a) && b.year == y && a.year == y && b.valueHa < a.valueHa
  }

  /** The two rows in either input order: `b` first, or `a` first when `swapped`. */
  function TwoRows(b: ForestChangeRow, a: ForestChangeRow, swapped: bool): seq<ForestChangeRow>
  {
    if swapped then [a, b] else [b, a]
  }

  /** Sorted for "loss", the larger loss (the more negative change) comes first, whichever row is listed first. */
  lemma TwoRowLossOrder(b: ForestChangeRow, a: ForestChangeRow, y: int, swapped: bool)
    requires LargerLossFirst(b, a, y)
    ensures SortedYearRows(TwoRows(b, a, swapped), y, "loss", true) == Ok([b, a])
  {
    var rows := TwoRows(b, a, swapped);
    var first, second := rows[0], rows[1];
    assert rows[..1] == [first];
    assert rows[..1][..0] == [];
    assert YearSelection(rows[..1], y, true) == [first];
    assert YearSelection(rows, y, true) == rows;
    assert SortBy(rows[..1], ValueKey, false) == [first];
    if swapped {
      assert Before(ValueKey, false, b, a);
      assert Insert(b, [a], ValueKey, false) == [b, a];
    } else {
      assert !Before(ValueKey, false, a, b);
      assert Insert(a, [b], ValueKey, false) == [b, a];
    }
  }

  /** Asked for by its own label, `b` resolves to itself when the two keys differ, whichever row is listed first. */
  lemma TwoRowResolve(b: ForestChangeRow, a: ForestChangeRow, y: int, swapped: bool, similarity: EntityUtils.Similarity)
    requires LargerLossFirst(b, a, y)
    requires EntityUtils.Normalize(b.entity) != EntityUtils.Normalize(a.entity)
    ensures Resolve(TwoRows(b, a, swapped), b.entity, Some(y), true, similarity) == Ok((b.entity, y))
  {
    var rows := TwoRows(b, a, swapped);
    var first, second := rows[0], rows[1];
    assert rows[..1] == [first];
    assert rows[..1][..0] == [];
    assert RowUtils.Passes(CountryFilter(true), b) && RowUtils.Passes(CountryFilter(true), a);
    assert RowUtils.UniqueOf(rows[..1], EntityOf, CountryFilter(true)) == [first.entity];
    assert RowUtils.UniqueOf(rows, EntityOf, CountryFilter(true)) == [first.entity, second.entity];
    if swapped {
      EntityUtils.MatchLastWins(b.entity, [a.entity, b.entity], similarity, 1);
    } else {
      EntityUtils.MatchLastWins(b.entity, [b.entity, a.entity], similarity, 0);
    }
  }

  /** The row with the larger loss ranks first for "loss", whichever row is listed first. */
  method TwoRowRank(b: ForestChangeRow, a: ForestChangeRow, y: int, swapped: bool, similarity: EntityUtils.Similarity)
    returns (rank: Result<(string, int, int, real)>)
    requires LargerLossFirst(b, a, y)
    requires EntityUtils.Normalize(b.entity) != EntityUtils.Normalize(a.entity)
    ensures rank == Ok((b.entity, y, 1, b.valueHa))
  {
    var rows := TwoRows(b, a, swapped);
    TwoRowLossOrder(b, a, y, swapped);
    TwoRowResolve(b, a, y, swapped, similarity);
    rank := RankForEntity(rows, b.entity, Some(y), "loss", true, similarity);
    var sorted := [b, a];
    assert RankOutcome(sorted, b.entity, y, rank);
    assert sorted[0].entity == b.entity;
    assert rank.Ok? && rank.value.2 == 1;
  }

  /** The top two for "loss" are the larger loss, then the smaller one, whichever row is listed first. */
  method TwoRowTop(b: ForestChangeRow, a: ForestChangeRow, y: int, swapped: bool) returns (top: Result<seq<(string, real)>>)
    requires LargerLossFirst(b, a, y)
    ensures top == Ok([Pair(b), Pair(a)])
  {
    TwoRowLossOrder(b, a, y, swapped);
    top := RankEntities(TwoRows(b, a, swapped), y, "loss", 2, true);
    assert |top.value| == 2 && top.value[0] == Pair(b) && top.value[1] == Pair(a);
    assert top.value == [Pair(b), Pair(a)];
  }

  /** Brazil (BRA, -2628412.5 ha) and Angola (AGO, -510031.25 ha) in 2020 are two such rows. */
  lemma BrazilAngola2020()
    ensures LargerLossFirst(ForestChangeRow("Brazil", "BRA", 2020, -2628412.5), ForestChangeRow("Angola", "AGO", 2020, -510031.25), 2020)
  {
    var bra, ago := "BRA", "AGO";
    assert 'A' <= bra[0] && IsUpper(bra);
    assert 'A' <= ago[0] && IsUpper(ago);
  }

  lemma BrazilAngolaKeys()
    ensures EntityUtils.Normalize("Brazil") != EntityUtils.Normalize("Angola")
  {
    EntityUtils.NormalizeBrazil();
    EntityUtils.NormalizeAngola();
  }

  /** Brazil ranks first for loss in 2020, and the top two are Brazil, then Angola. */
  method BrazilAngolaRanking(similarity: EntityUtils.Similarity)
    returns (rank: Result<(string, int, int, real)>, top: Result<seq<(string, real)>>)
    ensures rank == Ok(("Brazil", 2020, 1, -2628412.5))
    ensures top == Ok([("Brazil", -2628412.5), ("Angola", -510031.25)])
  {
    var brazil := ForestChangeRow("Brazil", "BRA", 2020, -2628412.5);
    var angola := ForestChangeRow("Angola", "AGO", 2020, -510031.25);
    BrazilAngola2020();
    BrazilAngolaKeys();
    rank := TwoRowRank(brazil, angola, 2020, false, similarity);
    top := TwoRowTop(brazil, angola, 2020, false);
  }
}
