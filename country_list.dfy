/**
 * The country list derived from the forest data: the names of the entities
 * that have at least one row with a country code.
 */
module CountryList {
  import RowUtils
  import ForestChange

  type Row = ForestChange.ForestChangeRow

  /** The entities of the country rows among `rows`. */
  ghost function CountrySet(rows: seq<Row>): set<string>
  {
    set k | 0 <= k < |rows| && ForestChange.IsCountryRow(rows[k]) :: rows[k].entity
  }

  /** The loop of `load_country_entities`, over rows already read. */
  method CountryEntities(rows: seq<Row>) returns (countries: set<string>)
    ensures countries == CountrySet(rows)
    ensures forall e :: e in countries <==> exists k :: 0 <= k < |rows| && rows[k].entity == e && ForestChange.IsCountryRow(rows[k])
  {
    countries := {};
    for i := 0 to |rows|
      invariant countries == CountrySet(rows[..i])
    {
      CountrySetAppend(rows[..i], rows[i]);
      assert rows[..i + 1] == rows[..i] + [rows[i]];
      if ForestChange.IsCountryRow(rows[i]) {
        countries := countries + {rows[i].entity};
      }
    }
    assert rows[..|rows|] == rows;
  }

  /** One more row adds its entity when it is a country row, and nothing otherwise. */
  lemma CountrySetAppend(rows: seq<Row>, row: Row)
    ensures CountrySet(rows + [row]) == CountrySet(rows) + if ForestChange.IsCountryRow(row) then {row.entity} else {}
  {
    var longer := rows + [row];
    forall e | e in CountrySet(longer)
      ensures e in CountrySet(rows) + if ForestChange.IsCountryRow(row) then {row.entity} else {}
    {
      var k :| 0 <= k < |longer| && ForestChange.IsCountryRow(longer[k]) && longer[k].entity == e;
      if k < |rows| {
        assert longer[k] == rows[k];
      }
    }
    forall e | e in CountrySet(rows)
      ensures e in CountrySet(longer)
    {
      var k :| 0 <= k < |rows| && ForestChange.IsCountryRow(rows[k]) && rows[k].entity == e;
      assert longer[k] == rows[k];
    }
    if ForestChange.IsCountryRow(row) {
      assert longer[|rows|] == row;
    }
  }

  lemma CountrySetEmpty()
    ensures CountrySet([]) == {}
  {
  }

  /** The derived set is, as a set, the forest entity list restricted to countries. */
  lemma CountrySetIsCountryEntities(rows: seq<Row>)
    ensures CountrySet(rows) == set e | e in RowUtils.UniqueOf(rows, ForestChange.EntityOf, ForestChange.CountryFilter(true))
  {
    var names := RowUtils.UniqueOf(rows, ForestChange.EntityOf, ForestChange.CountryFilter(true));
    forall e
      ensures e in CountrySet(rows) <==> e in names
    {
      RowUtils.UniqueOfMembers(rows, ForestChange.EntityOf, ForestChange.CountryFilter(true), e);
    }
  }

  /** Only which rows occur matters: not their order, nor how often each occurs. */
  lemma CountrySetIgnoresOrderAndDuplicates(a: seq<Row>, b: seq<Row>)
    requires forall row :: row in a <==> row in b
    ensures CountrySet(a) == CountrySet(b)
  {
    forall e | e in CountrySet(a)
      ensures e in CountrySet(b)
    {
      var k :| 0 <= k < |a| && ForestChange.IsCountryRow(a[k]) && a[k].entity == e;
      assert a[k] in b;
    }
    forall e | e in CountrySet(b)
      ensures e in CountrySet(a)
    {
      var k :| 0 <= k < |b| && ForestChange.IsCountryRow(b[k]) && b[k].entity == e;
      assert b[k] in a;
    }
  }
}
