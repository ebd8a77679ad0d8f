/** The dashboard's static schema configuration: the per-year column renames
    (app.py lines 17-48) and the canonical columns every dataset must expose
    (app.py lines 66-68). */
module Config {

  /** Raw column name to canonical column name, for one year. */
  type ColumnRenames = map<string, string>

  const ColumnMapping: map<string, ColumnRenames> := map[
    "2017" := Renames2017,
    "2018" := Renames2018And2019,
    "2019" := Renames2018And2019
  ]

  /** The 2017 file's dotted header names. */
  const Renames2017: ColumnRenames := map[
    "Happiness.Score" := "Happiness Score",
    "Economy..GDP.per.Capita." := "Economy (GDP per Capita)",
    "Health..Life.Expectancy." := "Health (Life Expectancy)",
    "Trust..Government.Corruption." := "Trust (Government Corruption)",
    "Family" := "Family",
    "Freedom" := "Freedom",
    "Generosity" := "Generosity",
    "Country" := "Country"
  ]

  /** The script gives 2018 and 2019 identical renames (app.py lines 28-47). */
  const Renames2018And2019: ColumnRenames := map[
    "Score" := "Happiness Score",
    "GDP per capita" := "Economy (GDP per Capita)",
    "Healthy life expectancy" := "Health (Life Expectancy)",
    "Perceptions of corruption" := "Trust (Government Corruption)",
    "Social support" := "Family",
    "Freedom to make life choices" := "Freedom",
    "Generosity" := "Generosity",
    "Country or region" := "Country"
  ]

  /** `required_columns`, in the source's order. */
  const RequiredColumns: seq<string> := [
    "Country", "Happiness Score", "Economy (GDP per Capita)", "Family",
    "Health (Life Expectancy)", "Freedom", "Trust (Government Corruption)",
    "Generosity"
  ]

  /** A rename table is stable when a name it produces is either not one of
      its keys or a key it maps to itself: renaming a second time has nothing
      left to change. */
  predicate Stable(m: ColumnRenames)
  {
    forall k :: k in m && m[k] in m ==> m[m[k]] == m[k]
  }

  /** Every configured year renames onto exactly the required columns: each
      target is required and each required column is some key's target. */
  lemma ConfiguredTargetsAreRequired(year: string)
    requires year in ColumnMapping
    ensures ColumnMapping[year].Values == set c | c in RequiredColumns
  {
    if year == "2017" {
      Targets2017(ColumnMapping[year]);
    } else {
      Targets2018And2019(ColumnMapping[year]);
    }
  }

  lemma Targets2017(m: ColumnRenames)
    requires m == Renames2017
    ensures m.Values == set c | c in RequiredColumns
  {
    assert m["Country"] == RequiredColumns[0];
    assert m["Happiness.Score"] == RequiredColumns[1];
    assert m["Economy..GDP.per.Capita."] == RequiredColumns[2];
    assert m["Family"] == RequiredColumns[3];
    assert m["Health..Life.Expectancy."] == RequiredColumns[4];
    assert m["Freedom"] == RequiredColumns[5];
    assert m["Trust..Government.Corruption."] == RequiredColumns[6];
    assert m["Generosity"] == RequiredColumns[7];
  }

  lemma Targets2018And2019(m: ColumnRenames)
    requires m == Renames2018And2019
    ensures m.Values == set c | c in RequiredColumns
  {
    assert m["Country or region"] == RequiredColumns[0];
    assert m["Score"] == RequiredColumns[1];
    assert m["GDP per capita"] == RequiredColumns[2];
    assert m["Social support"] == RequiredColumns[3];
    assert m["Healthy life expectancy"] == RequiredColumns[4];
    assert m["Freedom to make life choices"] == RequiredColumns[5];
    assert m["Perceptions of corruption"] == RequiredColumns[6];
    assert m["Generosity"] == RequiredColumns[7];
  }

  /** A table whose targets are required columns, each of which it either
      leaves alone or does not rename at all, is stable. */
  lemma StableWhenTargetsFixed(m: ColumnRenames)
    requires m.Values <= set c | c in RequiredColumns
    requires forall i :: 0 <= i < |RequiredColumns| && RequiredColumns[i] in m ==>
               m[RequiredColumns[i]] == RequiredColumns[i]
    ensures Stable(m)
  {
    forall k | k in m && m[k] in m ensures m[m[k]] == m[k] {
      assert m[k] in m.Values;
      var i :| 0 <= i < |RequiredColumns| && RequiredColumns[i] == m[k];
    }
  }

  /** No configured year renames a column onto a name that it would rename
      again. */
  lemma ConfiguredMappingsStable(year: string)
    requires year in ColumnMapping
    ensures Stable(ColumnMapping[year])
  {
    if year == "2017" {
      Stable2017(ColumnMapping[year]);
    } else {
      Stable2018And2019(ColumnMapping[year]);
    }
  }

  lemma Stable2017(m: ColumnRenames)
    requires m == Renames2017
    ensures Stable(m)
  {
    Targets2017(m);
    assert RequiredColumns[1] !in m && RequiredColumns[2] !in m;
    assert RequiredColumns[4] !in m && RequiredColumns[6] !in m;
    StableWhenTargetsFixed(m);
  }

  lemma Stable2018And2019(m: ColumnRenames)
    requires m == Renames2018And2019
    ensures Stable(m)
  {
    Targets2018And2019(m);
    assert RequiredColumns[0] !in m && RequiredColumns[1] !in m;
    assert RequiredColumns[2] !in m && RequiredColumns[3] !in m;
    assert RequiredColumns[4] !in m && RequiredColumns[5] !in m;
    assert RequiredColumns[6] !in m;
    StableWhenTargetsFixed(m);
  }
}
