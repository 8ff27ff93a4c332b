/** `Coronavirus.country_update(country_dict)`: a row dictionary of a country
    with a known code becomes the country, its update record under the
    database's field names, and its code; any other row becomes
    `(None, None, None)`. The name-to-code table is a parameter. */
module Update {
  import opened Common

  /** A value of the row dictionary: the country's name, or a cell's number. */
  datatype Value = Name(name: string) | Num(n: int)

  /** `(country, update_data, country_code)`, or `(None, None, None)`. */
  datatype Outcome = NoUpdate | Updated(country: string, data: map<string, Value>, code: string)

  /** The row's field names and the update record's names for them, in the
      order the record literal reads them. */
  const RENAMES: seq<(string, string)> := [
    ("total cases", "total_cases"),
    ("new cases", "new_cases"),
    ("total death", "total_deaths"),
    ("new deaths", "new_deaths"),
    ("total recovered", "total_recovered"),
    ("active cases", "active_cases"),
    ("critical cases", "critical_cases"),
    ("cases per 1 million", "cases_per_1m"),
    ("deaths per 1 million", "deaths_per_1m"),
    ("total tests", "total_tests"),
    ("test per1 million", "tests_per_1m"),
    ("population", "population")
  ]

  /** The update record's names. */
  const RECORD_KEYS: set<string> := {
    "total_cases", "new_cases", "total_deaths", "new_deaths", "total_recovered", "active_cases",
    "critical_cases", "cases_per_1m", "deaths_per_1m", "total_tests", "tests_per_1m", "population"
  }

  /** No two fields are renamed to the same name. */
  predicate DistinctTargets(pairs: seq<(string, string)>) {
    forall i, j | 0 <= i < j < |pairs| :: pairs[i].1 != pairs[j].1
  }

  /** The record literal over `pairs`: each value is read from the row in
      order, and the first field missing from the row raises `KeyError`. */
  function Renamed(row: map<string, Value>, pairs: seq<(string, string)>): (r: Result<map<string, Value>>)
    requires DistinctTargets(pairs)
    ensures r.Ok? <==> forall i | 0 <= i < |pairs| :: pairs[i].0 in row
    ensures r.Ok? ==> r.value.Keys == set i | 0 <= i < |pairs| :: pairs[i].1
    ensures r.Ok? ==> forall i | 0 <= i < |pairs| :: r.value[pairs[i].1] == row[pairs[i].0]
    ensures r.Err? ==> exists i | 0 <= i < |pairs| ::
                         && r.fault == MissingKey(pairs[i].0) && pairs[i].0 !in row
                         && forall j | 0 <= j < i :: pairs[j].0 in row
    decreases |pairs|
  {
    if |pairs| == 0 then Ok(map[])
    else if pairs[0].0 !in row then Err(MissingKey(pairs[0].0))
    else
      assert DistinctTargets(pairs[1..]) by {
        forall i, j | 0 <= i < j < |pairs| - 1 ensures pairs[1..][i].1 != pairs[1..][j].1 {
          assert pairs[1..][i] == pairs[i + 1] && pairs[1..][j] == pairs[j + 1];
        }
      }
      var rest := Renamed(row, pairs[1..]);
      TailIndices(pairs);
      match rest
      case Err(f) => Err(f)
      case Ok(m) => Ok(m[pairs[0].1 := row[pairs[0].0]])
  }

  /** The indices of `pairs[1..]` are those of `pairs` shifted by one. */
  lemma TailIndices(pairs: seq<(string, string)>)
    requires |pairs| > 0
    ensures forall i | 1 <= i < |pairs| :: pairs[i] == pairs[1..][i - 1]
  {
  }

  /** `country_update(country_dict)` with the name-to-code table `codes`. A
      row without a `country` field raises `KeyError`; a country missing from
      the table is no update; otherwise every renamed field must be present. */
  function CountryUpdate(row: map<string, Value>, codes: map<string, string>): (r: Result<Outcome>)
    ensures "country" !in row ==> r == Err(MissingKey("country"))
    ensures "country" in row && !(row["country"].Name? && row["country"].name in codes) ==> r == Ok(NoUpdate)
  {
    if "country" !in row then Err(MissingKey("country"))
    else
      match row["country"]
      case Name(name) =>
        if name in codes then
          TargetsDistinct();
          match Renamed(row, RENAMES)
          case Err(f) => Err(f)
          case Ok(data) => Ok(Updated(name, data, codes[name]))
        else Ok(NoUpdate)
      case Num(_) => Ok(NoUpdate)
  }

  lemma TargetsDistinct()
    ensures DistinctTargets(RENAMES)
  {
  }

  /** The renamed names are exactly the update record's names. */
  lemma TargetsAreRecordKeys()
    ensures (set i | 0 <= i < |RENAMES| :: RENAMES[i].1) == RECORD_KEYS
  {
    var targets := set i | 0 <= i < |RENAMES| :: RENAMES[i].1;
    forall i | 0 <= i < |RENAMES| ensures RENAMES[i].1 in RECORD_KEYS {
    }
    assert RENAMES[0].1 in targets && RENAMES[1].1 in targets && RENAMES[2].1 in targets;
    assert RENAMES[3].1 in targets && RENAMES[4].1 in targets && RENAMES[5].1 in targets;
    assert RENAMES[6].1 in targets && RENAMES[7].1 in targets && RENAMES[8].1 in targets;
    assert RENAMES[9].1 in targets && RENAMES[10].1 in targets && RENAMES[11].1 in targets;
  }

  /** A known country whose row holds every field yields its name, its code
      and the twelve-field record, each field copied from its row field. */
  lemma KnownCountry(row: map<string, Value>, codes: map<string, string>, name: string)
    requires "country" in row && row["country"] == Name(name) && name in codes
    requires forall i | 0 <= i < |RENAMES| :: RENAMES[i].0 in row
    ensures CountryUpdate(row, codes).Ok? && CountryUpdate(row, codes).value.Updated?
    ensures CountryUpdate(row, codes).value.country == name
    ensures CountryUpdate(row, codes).value.code == codes[name]
    ensures CountryUpdate(row, codes).value.data.Keys == RECORD_KEYS
    ensures forall i | 0 <= i < |RENAMES| ::
              CountryUpdate(row, codes).value.data[RENAMES[i].1] == row[RENAMES[i].0]
  {
    TargetsDistinct();
    TargetsAreRecordKeys();
  }

  /** For instance, the deaths field and the tests-per-million field. */
  lemma KnownCountryExample(row: map<string, Value>, codes: map<string, string>, name: string)
    requires "country" in row && row["country"] == Name(name) && name in codes
    requires forall i | 0 <= i < |RENAMES| :: RENAMES[i].0 in row
    requires "total death" in row && "test per1 million" in row
    ensures CountryUpdate(row, codes).Ok? && CountryUpdate(row, codes).value.Updated?
    ensures CountryUpdate(row, codes).value.data.Keys == RECORD_KEYS
    ensures CountryUpdate(row, codes).value.data["total_deaths"] == row["total death"]
    ensures CountryUpdate(row, codes).value.data["tests_per_1m"] == row["test per1 million"]
  {
    KnownCountry(row, codes, name);
    var data := CountryUpdate(row, codes).value.data;
    assert data[RENAMES[2].1] == row[RENAMES[2].0];
    assert data[RENAMES[10].1] == row[RENAMES[10].0];
  }

  /** A known country whose row lacks a field raises `KeyError` for the first
      missing field in the record's order. */
  lemma MissingField(row: map<string, Value>, codes: map<string, string>, name: string, i: int)
    requires "country" in row && row["country"] == Name(name) && name in codes
    requires 0 <= i < |RENAMES| && RENAMES[i].0 !in row
    requires forall j | 0 <= j < i :: RENAMES[j].0 in row
    ensures CountryUpdate(row, codes) == Err(MissingKey(RENAMES[i].0))
  {
    TargetsDistinct();
    var r := Renamed(row, RENAMES);
    var k :| 0 <= k < |RENAMES| && r.fault == MissingKey(RENAMES[k].0) && RENAMES[k].0 !in row
             && forall j | 0 <= j < k :: RENAMES[j].0 in row;
    assert k == i;
  }
}
