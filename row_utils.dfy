/**
 * Shared helpers over any sequence of rows that carry an entity name and a year.
 * A row type is given by its two accessors; the optional row filter is `None`
 * when every row is accepted. The rows are a value (`seq`), so no helper can
 * change them.
 */
module RowUtils {
  import opened Outcomes

  /** A row takes part when there is no filter or the filter accepts it. */
  predicate Passes<R>(filter: Option<R -> bool>, row: R)
  {
    filter.None? || filter.value(row)
  }

  /** Some row passing `filter` has entity `e`. */
  predicate Occurs<R>(rows: seq<R>, entityOf: R -> string, filter: Option<R -> bool>, e: string)
  {
    exists k :: 0 <= k < |rows| && Passes(filter, rows[k]) && entityOf(rows[k]) == e
  }

  // ---------------------------------------------------------------- unique_entities

  /** The entity names of the passing rows, each kept at its first occurrence. */
  function UniqueOf<R>(rows: seq<R>, entityOf: R -> string, filter: Option<R -> bool>): seq<string>
  {
    if |rows| == 0 then []
    else
      var prior := UniqueOf(rows[..|rows| - 1], entityOf, filter);
      var row := rows[|rows| - 1];
      if Passes(filter, row) && entityOf(row) !in prior then prior + [entityOf(row)] else prior
  }

  /**
   * The index of the first row passing `filter` whose entity is `e`, or `|rows|` when there is none.
   */
  function FirstSeen<R>(rows: seq<R>, entityOf: R -> string, filter: Option<R -> bool>, e: string): (k: nat)
    ensures k <= |rows|
    ensures k < |rows| ==> Passes(filter, rows[k]) && entityOf(rows[k]) == e
    ensures forall m :: 0 <= m < k ==> !(Passes(filter, rows[m]) && entityOf(rows[m]) == e)
  {
    if |rows| == 0 then 0
    else
      var k := FirstSeen(rows[..|rows| - 1], entityOf, filter, e);
      var row := rows[|rows| - 1];
      if k < |rows| - 1 then k
      else if Passes(filter, row) && entityOf(row) == e then |rows| - 1
      else |rows|
  }

  /** A name is listed exactly when some passing row carries it. */
  lemma {:induction false} UniqueOfMembers<R>(rows: seq<R>, entityOf: R -> string, filter: Option<R -> bool>, e: string)
    ensures e in UniqueOf(rows, entityOf, filter) <==> Occurs(rows, entityOf, filter, e)
  {
    if |rows| > 0 {
      var init := rows[..|rows| - 1];
      UniqueOfMembers(init, entityOf, filter, e);
      if Occurs(init, entityOf, filter, e) {
        var k :| 0 <= k < |init| && Passes(filter, init[k]) && entityOf(init[k]) == e;
        assert rows[k] == init[k];
      }
      if Occurs(rows, entityOf, filter, e) {
        var k :| 0 <= k < |rows| && Passes(filter, rows[k]) && entityOf(rows[k]) == e;
        if k < |init| {
          assert init[k] == rows[k];
        }
      }
    }
  }

  predicate Distinct(s: seq<string>)
  {
    forall i, j :: 0 <= i < j < |s| ==> s[i] != s[j]
  }

  /** No name is listed twice. */
  lemma {:induction false} UniqueOfDistinct<R>(rows: seq<R>, entityOf: R -> string, filter: Option<R -> bool>)
    ensures Distinct(UniqueOf(rows, entityOf, filter))
  {
    if |rows| > 0 {
      var prior := UniqueOf(rows[..|rows| - 1], entityOf, filter);
      var u := UniqueOf(rows, entityOf, filter);
      UniqueOfDistinct(rows[..|rows| - 1], entityOf, filter);
      if u != prior {
        assert u == prior + [u[|u| - 1]] && u[|u| - 1] !in prior;
        forall i, j | 0 <= i < j < |u|
          ensures u[i] != u[j]
        {
          assert u[i] == prior[i] && prior[i] in prior;
          if j < |u| - 1 {
            assert u[j] == prior[j];
            assert prior[i] != prior[j];
          }
        }
      }
    }
  }

  /** Names appear in the order of their first passing row. */
  lemma {:induction false} UniqueOfFirstSeenOrder<R>(rows: seq<R>, entityOf: R -> string, filter: Option<R -> bool>)
    ensures var u := UniqueOf(rows, entityOf, filter);
            forall i, j :: 0 <= i < |u| && 0 <= j < |u| ==>
              (i < j <==> FirstSeen(rows, entityOf, filter, u[i]) < FirstSeen(rows, entityOf, filter, u[j]))
  {
    var u := UniqueOf(rows, entityOf, filter);
    UniqueOfStrictOrder(rows, entityOf, filter);
  }

  lemma {:induction false} UniqueOfStrictOrder<R>(rows: seq<R>, entityOf: R -> string, filter: Option<R -> bool>)
    ensures var u := UniqueOf(rows, entityOf, filter);
            forall i, j :: 0 <= i < j < |u| ==>
              FirstSeen(rows, entityOf, filter, u[i]) < FirstSeen(rows, entityOf, filter, u[j]) < |rows|
  {
    if |rows| > 0 {
      var init, row := rows[..|rows| - 1], rows[|rows| - 1];
      var prior := UniqueOf(init, entityOf, filter);
      var u := UniqueOf(rows, entityOf, filter);
      UniqueOfStrictOrder(init, entityOf, filter);
      forall i | 0 <= i < |prior|
        ensures FirstSeen(rows, entityOf, filter, prior[i]) == FirstSeen(init, entityOf, filter, prior[i]) < |init|
      {
        UniqueOfMembers(init, entityOf, filter, prior[i]);
        var k :| 0 <= k < |init| && Passes(filter, init[k]) && entityOf(init[k]) == prior[i];
      }
      if Passes(filter, row) && entityOf(row) !in prior {
        UniqueOfMembers(init, entityOf, filter, entityOf(row));
        var f := FirstSeen(init, entityOf, filter, entityOf(row));
        if f < |init| {
          assert Occurs(init, entityOf, filter, entityOf(row));
        }
        assert FirstSeen(rows, entityOf, filter, entityOf(row)) == |init|;
      }
    }
  }

  /** `unique_entities(rows, row_filter)`: the loop with its `seen` set and `result` list. */
  method UniqueEntities<R>(rows: seq<R>, entityOf: R -> string, filter: Option<R -> bool>) returns (result: seq<string>)
    ensures result == UniqueOf(rows, entityOf, filter)
    ensures Distinct(result)
    ensures forall e :: e in result <==> Occurs(rows, entityOf, filter, e)
  {
    var seen: set<string> := {};
    result := [];
    for i := 0 to |rows|
      invariant result == UniqueOf(rows[..i], entityOf, filter)
      invariant forall e :: e in seen <==> e in result
    {
      assert rows[..i + 1][..i] == rows[..i];
      var row := rows[i];
      if filter.Some? && !filter.value(row) {
        continue;
      }
      if entityOf(row) in seen {
        continue;
      }
      seen := seen + {entityOf(row)};
      result := result + [entityOf(row)];
    }
    assert rows[..|rows|] == rows;
    UniqueOfDistinct(rows, entityOf, filter);
    forall e
      ensures e in result <==> Occurs(rows, entityOf, filter, e)
    {
      UniqueOfMembers(rows, entityOf, filter, e);
    }
  }

  // ---------------------------------------------------------------- latest_year, latest_year_for_entity

  /** `y` is the year of some passing row and no passing row is later. */
  predicate IsLatest<R>(rows: seq<R>, yearOf: R -> int, filter: Option<R -> bool>, y: int)
  {
    && (exists k :: 0 <= k < |rows| && Passes(filter, rows[k]) && yearOf(rows[k]) == y)
    && (forall k :: 0 <= k < |rows| && Passes(filter, rows[k]) ==> yearOf(rows[k]) <= y)
  }

  /** The largest year among the passing rows, `None` when no row passes. */
  function LatestOf<R>(rows: seq<R>, yearOf: R -> int, filter: Option<R -> bool>): (latest: Option<int>)
    ensures latest.None? <==> forall k :: 0 <= k < |rows| ==> !Passes(filter, rows[k])
    ensures latest.Some? ==> IsLatest(rows, yearOf, filter, latest.value)
  {
    if |rows| == 0 then None
    else
      var prior := LatestOf(rows[..|rows| - 1], yearOf, filter);
      var row := rows[|rows| - 1];
      assert forall k :: 0 <= k < |rows| - 1 ==> rows[..|rows| - 1][k] == rows[k];
      if !Passes(filter, row) then prior
      else if prior.None? || yearOf(row) > prior.value then Some(yearOf(row))
      else prior
  }

  /** The filter of `latest_year_for_entity`: `filter` and, besides, entity `entity`. */
  function ForEntity<R>(filter: Option<R -> bool>, entityOf: R -> string, entity: string): Option<R -> bool>
  {
    Some(row => Passes(filter, row) && entityOf(row) == entity)
  }

  /** `latest_year(rows, row_filter)`: raises "No data available." when no row passes. */
  method LatestYear<R>(rows: seq<R>, yearOf: R -> int, filter: Option<R -> bool>) returns (r: Result<int>)
    ensures r == match LatestOf(rows, yearOf, filter)
                 case Some(y) => Ok(y)
                 case None => Err(NoDataAvailable)
  {
    var latest: Option<int> := None;
    for i := 0 to |rows|
      invariant latest == LatestOf(rows[..i], yearOf, filter)
    {
      assert rows[..i + 1][..i] == rows[..i];
      var row := rows[i];
      if filter.Some? && !filter.value(row) {
        continue;
      }
      if latest.None? || yearOf(row) > latest.value {
        latest := Some(yearOf(row));
      }
    }
    assert rows[..|rows|] == rows;
    if latest.None? {
      return Err(NoDataAvailable);
    }
    return Ok(latest.value);
  }

  /** `latest_year_for_entity(rows, entity, row_filter)`: raises when no passing row has that entity. */
  method LatestYearForEntity<R>(rows: seq<R>, entityOf: R -> string, yearOf: R -> int, filter: Option<R -> bool>, entity: string)
    returns (r: Result<int>)
    ensures r == match LatestOf(rows, yearOf, ForEntity(filter, entityOf, entity))
                 case Some(y) => Ok(y)
                 case None => Err(NoEntityData(entity))
  {
    var latest: Option<int> := None;
    for i := 0 to |rows|
      invariant latest == LatestOf(rows[..i], yearOf, ForEntity(filter, entityOf, entity))
    {
      assert rows[..i + 1][..i] == rows[..i];
      var row := rows[i];
      if filter.Some? && !filter.value(row) {
        continue;
      }
      if entityOf(row) != entity {
        continue;
      }
      if latest.None? || yearOf(row) > latest.value {
        latest := Some(yearOf(row));
      }
    }
    assert rows[..|rows|] == rows;
    if latest.None? {
      return Err(NoEntityData(entity));
    }
    return Ok(latest.value);
  }

  /** `latest_year_for_entity` raises exactly when no passing row has the entity, so always on empty input. */
  lemma LatestForEntityMissing<R>(rows: seq<R>, entityOf: R -> string, yearOf: R -> int, filter: Option<R -> bool>, entity: string)
    ensures LatestOf(rows, yearOf, ForEntity(filter, entityOf, entity)).None? <==> !Occurs(rows, entityOf, filter, entity)
  {
    var f := ForEntity(filter, entityOf, entity);
    if LatestOf(rows, yearOf, f).None? {
      forall k | 0 <= k < |rows|
        ensures !(Passes(filter, rows[k]) && entityOf(rows[k]) == entity)
      {
        assert !Passes(f, rows[k]);
      }
    }
  }

  // ---------------------------------------------------------------- a missing filter

  /** Filters that agree on every row give the same answers. */
  lemma {:induction false} SameFilterSameAnswers<R>(rows: seq<R>, entityOf: R -> string, yearOf: R -> int, f: Option<R -> bool>, g: Option<R -> bool>)
    requires forall k :: 0 <= k < |rows| ==> Passes(f, rows[k]) == Passes(g, rows[k])
    ensures UniqueOf(rows, entityOf, f) == UniqueOf(rows, entityOf, g)
    ensures LatestOf(rows, yearOf, f) == LatestOf(rows, yearOf, g)
  {
    if |rows| > 0 {
      var init := rows[..|rows| - 1];
      assert forall k :: 0 <= k < |init| ==> init[k] == rows[k];
      SameFilterSameAnswers(init, entityOf, yearOf, f, g);
    }
  }

  function AcceptAll<R>(row: R): bool { true }

  /** A `None` filter behaves like one that accepts every row, for all three helpers. */
  lemma NoFilterAcceptsAll<R>(rows: seq<R>, entityOf: R -> string, yearOf: R -> int, entity: string)
    ensures UniqueOf(rows, entityOf, None) == UniqueOf(rows, entityOf, Some(AcceptAll))
    ensures LatestOf(rows, yearOf, None) == LatestOf(rows, yearOf, Some(AcceptAll))
    ensures LatestOf(rows, yearOf, ForEntity(None, entityOf, entity))
         == LatestOf(rows, yearOf, ForEntity(Some(AcceptAll), entityOf, entity))
  {
    SameFilterSameAnswers(rows, entityOf, yearOf, None, Some(AcceptAll));
    SameFilterSameAnswers(rows, entityOf, yearOf, ForEntity(None, entityOf, entity), ForEntity(Some(AcceptAll), entityOf, entity));
  }
}
