/** Telemetry rows of the grid outage dashboard and the column check done when
    the CSV file is loaded.  Timestamps are whole seconds; the numeric columns are
    exact reals (the dashboard's floating point is not modelled). */
module Telemetry {

  /** One observation of one grid asset at one timestamp. */
  datatype Row = Row(
    timestamp: int,
    assetId: string,
    lat: real,
    lon: real,
    outageProb: real,
    damageIndex: real,
    crewEtaMin: real,
    criticality: real,
    customerImpact: real)

  /** A row with the derived composite score attached; nothing else is added. */
  datatype ScoredRow = ScoredRow(row: Row, composite: real)

  datatype Result<T, E> = Ok(value: T) | Err(error: E)

  /** The column set the loader insists on. */
  function ExpectedColumns(): set<string>
  {
    {"timestamp", "asset_id", "lat", "lon", "outage_prob", "damage_index",
     "crew_eta_min", "criticality", "customer_impact"}
  }

  /** The load-time check: fails naming exactly the expected columns the file lacks. */
  function CheckColumns(columns: set<string>): (r: Result<set<string>, set<string>>)
    ensures r.Ok? <==> ExpectedColumns() <= columns
    ensures r.Ok? ==> r.value == columns
    ensures r.Err? ==> r.error != {}
    ensures r.Err? ==> forall c :: c in r.error <==> c in ExpectedColumns() && c !in columns
  {
    var missing := ExpectedColumns() - columns;
    if missing != {} then Err(missing)
    else
      assert ExpectedColumns() <= columns by {
        forall c | c in ExpectedColumns() ensures c in columns {
          assert c !in columns ==> c in missing;
        }
      }
      Ok(columns)
  }

  ghost predicate NonDecreasing(ts: seq<int>)
  {
    forall i, j :: 0 <= i <= j < |ts| ==> ts[i] <= ts[j]
  }

  /** The timestamp column of a table. */
  function Timestamps(rows: seq<Row>): (ts: seq<int>)
    ensures |ts| == |rows|
    ensures forall i :: 0 <= i < |rows| ==> ts[i] == rows[i].timestamp
  {
    seq(|rows|, i requires 0 <= i < |rows| => rows[i].timestamp)
  }

  /** Rows are in non-decreasing timestamp order, as the loader leaves them. */
  ghost predicate SortedByTime(rows: seq<Row>)
  {
    NonDecreasing(Timestamps(rows))
  }

  /** The distinct asset identifiers of a table. */
  function AssetIds(rows: seq<Row>): set<string>
  {
    set i | 0 <= i < |rows| :: rows[i].assetId
  }

  /** A non-empty table has at least one asset. */
  lemma AssetIdsNonEmpty(rows: seq<Row>)
    requires |rows| > 0
    ensures |AssetIds(rows)| > 0
  {
    assert rows[0].assetId in AssetIds(rows);
  }

  /** Two tables agree on everything that positions a row: its asset and its timestamp. */
  ghost predicate SameKeys(a: seq<Row>, b: seq<Row>)
  {
    |a| == |b| &&
    forall i :: 0 <= i < |a| ==> a[i].assetId == b[i].assetId && a[i].timestamp == b[i].timestamp
  }

  /** Changing only the measurement columns keeps the asset set and the time order. */
  lemma SameKeysPreserve(a: seq<Row>, b: seq<Row>)
    requires SameKeys(a, b)
    ensures AssetIds(a) == AssetIds(b)
    ensures SortedByTime(a) <==> SortedByTime(b)
  {
    forall x | x in AssetIds(a) ensures x in AssetIds(b) {
      var i :| 0 <= i < |a| && a[i].assetId == x;
      assert b[i].assetId == x;
    }
    forall x | x in AssetIds(b) ensures x in AssetIds(a) {
      var i :| 0 <= i < |b| && b[i].assetId == x;
      assert a[i].assetId == x;
    }
  }
}
