/** Schema normalisation (app.py lines 58-69): the loaded table's header is
    renamed with the selected year's entry of the column mapping, when there
    is one, and the table is accepted only if every required column is then
    present. The CSV parser (pd.read_csv) is not modelled: the parsed header
    and rows are inputs. */
module Normalizer {
  import opened Config

  /** A parsed CSV value. */
  datatype Cell = Text(text: string) | Number(value: real) | Empty

  /** A parsed table: an ordered header, which may repeat a name, and rows
      of cells. */
  datatype Table = Table(columns: seq<string>, rows: seq<seq<Cell>>)

  /** The dashboard either goes on with the renamed table or reports that
      the dataset lacks the required columns. */
  datatype Outcome = Accepted(table: Table) | Rejected

  /** `df.rename(columns=m)`: each header name that is a key of `m` becomes
      its mapped name; every other name, and the header's length and order,
      stay as they were. */
  function RenameColumns(cols: seq<string>, m: ColumnRenames): (r: seq<string>)
    ensures |r| == |cols|
    ensures forall i :: 0 <= i < |cols| ==> r[i] == (if cols[i] in m then m[cols[i]] else cols[i])
    decreases |cols|
  {
    if cols == [] then []
    else [if cols[0] in m then m[cols[0]] else cols[0]] + RenameColumns(cols[1..], m)
  }

  /** The header after lines 62-63: renamed when the year has an entry in the
      column mapping, untouched otherwise. */
  function ColumnsFor(year: string, cols: seq<string>): (r: seq<string>)
    ensures |r| == |cols|
    ensures forall i :: 0 <= i < |cols| ==>
              r[i] == cols[i] || (year in ColumnMapping && r[i] in RequiredColumns)
    ensures forall i :: 0 <= i < |cols| ==>
              r[i] == if year in ColumnMapping && cols[i] in ColumnMapping[year]
                      then ColumnMapping[year][cols[i]] else cols[i]
  {
    if year in ColumnMapping then
      ConfiguredTargetsAreRequired(year);
      var m := ColumnMapping[year];
      var r := RenameColumns(cols, m);
      assert forall i :: 0 <= i < |cols| && cols[i] in m ==> m[cols[i]] in m.Values;
      r
    else cols
  }

  /** `all(col in columns for col in required)`, checked one required name
      at a time. */
  function AllPresent(required: seq<string>, cols: seq<string>): (b: bool)
    ensures b <==> forall c :: c in required ==> c in cols
    decreases |required|
  {
    if required == [] then true
    else required[0] in cols && AllPresent(required[1..], cols)
  }

  /** The required columns a header lacks. */
  function MissingColumns(cols: seq<string>): (r: set<string>)
    ensures r == {} <==> forall c :: c in RequiredColumns ==> c in cols
  {
    var r := set c | c in RequiredColumns && c !in cols;
    assert forall c :: c in RequiredColumns && c !in cols ==> c in r;
    r
  }

  /** Lines 62-69: rename for the year, then accept only when every required
      column is present. */
  function Normalize(year: string, raw: Table): (r: Outcome)
    ensures r.Accepted? <==> forall c :: c in RequiredColumns ==> c in ColumnsFor(year, raw.columns)
    ensures r.Accepted? ==> r.table == Table(ColumnsFor(year, raw.columns), raw.rows)
  {
    var cols := ColumnsFor(year, raw.columns);
    if AllPresent(RequiredColumns, cols) then Accepted(Table(cols, raw.rows)) else Rejected
  }

  // ---------------------------------------------------------------------------
  // Renaming

  /** Renaming with a stable table a second time changes nothing. */
  lemma RenameIdempotent(cols: seq<string>, m: ColumnRenames)
    requires Stable(m)
    ensures RenameColumns(RenameColumns(cols, m), m) == RenameColumns(cols, m)
  {
    var once := RenameColumns(cols, m);
    var twice := RenameColumns(once, m);
    forall i | 0 <= i < |cols| ensures twice[i] == once[i] {
      if cols[i] in m {
        assert once[i] == m[cols[i]];
      }
    }
  }

  /** For every configured year, normalising an already normalised header
      leaves it as it is. */
  lemma ColumnsForIdempotent(year: string, cols: seq<string>)
    ensures ColumnsFor(year, ColumnsFor(year, cols)) == ColumnsFor(year, cols)
  {
    if year in ColumnMapping {
      ConfiguredMappingsStable(year);
      RenameIdempotent(cols, ColumnMapping[year]);
    }
  }

  /** A year without an entry keeps the loaded header and rows: the table is
      taken to be canonical already. */
  lemma UnmappedYearIsIdentity(year: string, raw: Table)
    requires year !in ColumnMapping
    ensures Normalize(year, raw).Accepted? <==> forall c :: c in RequiredColumns ==> c in raw.columns
    ensures Normalize(year, raw).Accepted? ==> Normalize(year, raw).table == raw
  {
  }

  /** A header whose every renamed name is mapped to itself is left as it is. */
  lemma RenameFixesOwnTargets(cols: seq<string>, m: ColumnRenames)
    requires forall c :: c in cols && c in m ==> m[c] == c
    ensures RenameColumns(cols, m) == cols
  {
  }

  /** For every configured year, a header that is already canonical (every
      name required, or not one the year renames) is left as it is. */
  lemma CanonicalHeaderUnchanged(year: string, cols: seq<string>)
    requires year in ColumnMapping
    requires forall c :: c in cols ==> c in RequiredColumns || c !in ColumnMapping[year]
    ensures ColumnsFor(year, cols) == cols
  {
    ConfiguredTargetsAreRequired(year);
    ConfiguredMappingsStable(year);
    StableFixesTargets(ColumnMapping[year], cols);
  }

  lemma StableFixesTargets(m: ColumnRenames, cols: seq<string>)
    requires Stable(m)
    requires forall c :: c in cols ==> c in m.Values || c !in m
    ensures RenameColumns(cols, m) == cols
  {
    forall c | c in cols && c in m ensures m[c] == c {
      var k :| k in m && m[k] == c;
    }
    RenameFixesOwnTargets(cols, m);
  }

  // ---------------------------------------------------------------------------
  // Validation

  /** The check fails exactly when some required column is missing; only
      required columns are ever reported missing. */
  lemma MissingColumnsExact(cols: seq<string>)
    ensures AllPresent(RequiredColumns, cols) <==> MissingColumns(cols) == {}
    ensures MissingColumns(cols) <= set c | c in RequiredColumns
  {
    if !AllPresent(RequiredColumns, cols) {
      var c :| c in RequiredColumns && c !in cols;
      assert c in MissingColumns(cols);
    }
  }

  /** A configured year's raw header that holds every key of the year's
      renames is always accepted, whatever else it holds. */
  lemma RawHeaderWithAllKeysAccepted(year: string, raw: Table)
    requires year in ColumnMapping
    requires forall k :: k in ColumnMapping[year] ==> k in raw.columns
    ensures Normalize(year, raw).Accepted?
  {
    var m := ColumnMapping[year];
    var cols := ColumnsFor(year, raw.columns);
    ConfiguredTargetsAreRequired(year);
    forall c | c in RequiredColumns ensures c in cols {
      assert c in m.Values;
      var k :| k in m && m[k] == c;
      var i :| 0 <= i < |raw.columns| && raw.columns[i] == k;
      assert cols[i] == c;
    }
  }

  /** Renaming can repeat a name: a 2018 header holding both "Score" and
      "Happiness Score" ends with "Happiness Score" twice, which is why the
      header is a sequence and not a set. */
  lemma RenameMayRepeatNames()
    ensures ColumnsFor("2018", ["Score", "Happiness Score"]) == ["Happiness Score", "Happiness Score"]
  {
    var m := ColumnMapping["2018"];
    assert m == Renames2018And2019;
    assert "Happiness Score" !in m;
  }

  // ---------------------------------------------------------------------------
  // Scenarios

  /** A table whose header holds the 2019 raw names plus "Overall rank",
      whatever its rows: accepted, and
      its first column "Score" is now "Happiness Score" with the same cells. */
  lemma Accepts2019Header(year: string, raw: Table)
    requires year == "2019"
    requires raw.columns == ["Score", "Country or region", "GDP per capita", "Social support",
                             "Healthy life expectancy", "Freedom to make life choices",
                             "Generosity", "Perceptions of corruption", "Overall rank"]
    ensures Normalize(year, raw).Accepted?
    ensures Normalize(year, raw).table.columns[0] == "Happiness Score"
    ensures Normalize(year, raw).table.rows == raw.rows
  {
    assert ColumnMapping[year] == Renames2018And2019;
    HasEveryRename2018And2019Key(raw.columns);
    RawHeaderWithAllKeysAccepted(year, raw);
    ScoreRenamed2019(year, raw.columns);
  }

  /** In 2019 a leading `Score` column becomes `Happiness Score`. */
  lemma ScoreRenamed2019(year: string, cols: seq<string>)
    requires year == "2019"
    requires |cols| > 0 && cols[0] == "Score"
    ensures ColumnsFor(year, cols)[0] == "Happiness Score"
  {
    var m := ColumnMapping[year];
    assert m["Score"] == "Happiness Score";
    assert RenameColumns(cols, m)[0] == m[cols[0]];
  }

  lemma HasEveryRename2018And2019Key(cols: seq<string>)
    requires cols == ["Score", "Country or region", "GDP per capita", "Social support",
                      "Healthy life expectancy", "Freedom to make life choices",
                      "Generosity", "Perceptions of corruption", "Overall rank"]
    ensures forall k :: k in Renames2018And2019 ==> k in cols
  {
    forall k | k in Renames2018And2019 ensures k in cols {
      assert k in Renames2018And2019.Keys;
    }
  }

  /** A configured year's raw header that holds every key of the year's
      renames but one, and nothing that renames onto that key's target, is
      rejected; that target is the one required column missing. */
  lemma RawHeaderLackingOneKeyRejected(year: string, raw: Table, key: string)
    requires year in ColumnMapping && key in ColumnMapping[year]
    requires forall k :: k in ColumnMapping[year] && k != key ==> k in raw.columns
    requires forall c :: c in raw.columns ==>
               (if c in ColumnMapping[year] then ColumnMapping[year][c] else c) != ColumnMapping[year][key]
    ensures Normalize(year, raw) == Rejected
    ensures MissingColumns(ColumnsFor(year, raw.columns)) == {ColumnMapping[year][key]}
  {
    var m := ColumnMapping[year];
    var t := m[key];
    var cols := ColumnsFor(year, raw.columns);
    ConfiguredTargetsAreRequired(year);
    assert t in m.Values;
    forall i | 0 <= i < |cols| ensures cols[i] != t {
      assert raw.columns[i] in raw.columns;
    }
    forall c | c in RequiredColumns && c != t ensures c in cols {
      assert c in m.Values;
      var k :| k in m && m[k] == c;
      var i :| 0 <= i < |raw.columns| && raw.columns[i] == k;
      assert cols[i] == c;
    }
    MissingColumnsExact(cols);
  }

  /** A table with a 2018 header lacking its "Generosity" column is rejected,
      and "Generosity" is the one required column missing. */
  lemma Rejects2018WithoutGenerosity(year: string, raw: Table)
    requires year == "2018"
    requires raw.columns == ["Score", "Country or region", "GDP per capita", "Social support",
                             "Healthy life expectancy", "Freedom to make life choices",
                             "Perceptions of corruption", "Overall rank"]
    ensures Normalize(year, raw) == Rejected
    ensures MissingColumns(ColumnsFor(year, raw.columns)) == {"Generosity"}
  {
    assert ColumnMapping[year] == Renames2018And2019;
    NothingRenamedOntoGenerosity(ColumnMapping[year], raw.columns);
    RawHeaderLackingOneKeyRejected(year, raw, "Generosity");
  }

  /** The 2018 header without "Generosity" holds every other key of the
      renames, and none of its columns is renamed to "Generosity". */
  lemma NothingRenamedOntoGenerosity(m: ColumnRenames, cols: seq<string>)
    requires m == Renames2018And2019
    requires cols == ["Score", "Country or region", "GDP per capita", "Social support",
                      "Healthy life expectancy", "Freedom to make life choices",
                      "Perceptions of corruption", "Overall rank"]
    ensures "Generosity" in m && m["Generosity"] == "Generosity"
    ensures forall k :: k in m && k != "Generosity" ==> k in cols
    ensures forall c :: c in cols ==> (if c in m then m[c] else c) != "Generosity"
  {
    forall k | k in m && k != "Generosity" ensures k in cols {
      assert k in Renames2018And2019.Keys;
    }
    forall c | c in cols ensures (if c in m then m[c] else c) != "Generosity" {
      var i :| 0 <= i < |cols| && cols[i] == c;
      assert i < 8;
    }
  }

  // ---------------------------------------------------------------------------
  // The dataframe the script renames in place

  /** The loaded dataframe `df`: its header and rows. */
  class DataFrame {
    var columns: seq<string>
    var rows: seq<seq<Cell>>

    constructor (header: seq<string>, data: seq<seq<Cell>>)
      ensures columns == header && rows == data
    {
      columns := header;
      rows := data;
    }

    function Snapshot(): Table
      reads this
    {
      Table(columns, rows)
    }

    /** `df.rename(columns=m, inplace=True)`: the header is renamed, the rows
        stay as they are. */
    method Rename(m: ColumnRenames)
      modifies this
      ensures columns == RenameColumns(old(columns), m)
      ensures rows == old(rows)
    {
      columns := RenameColumns(columns, m);
    }
  }

  /** Lines 62-69 as the script runs them: rename `df` in place for the
      selected year, then check the required columns. The answer is the one
      `Normalize` gives for the table as loaded. */
  method PrepareFrame(df: DataFrame, year: string) returns (ok: bool)
    modifies df
    ensures df.columns == ColumnsFor(year, old(df.columns))
    ensures df.rows == old(df.rows)
    ensures ok == Normalize(year, old(df.Snapshot())).Accepted?
    ensures ok ==> Normalize(year, old(df.Snapshot())).table == df.Snapshot()
  {
    if year in ColumnMapping {
      df.Rename(ColumnMapping[year]);
    }
    ok := AllPresent(RequiredColumns, df.columns);
  }
}
