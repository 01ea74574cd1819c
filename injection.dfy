/** Damage injection, as values: which timestamps are hit, and what happens to a
    hit row.  The in-place update of the session's table is Replay.Session.Inject. */
module Injection {
  import opened Telemetry
  import opened Composite

  const OutageShare: real := 0.5
  const CrewEtaShare: real := 0.3
  const CrewEtaFloor: real := 5.0
  const CrewEtaCeiling: real := 240.0

  ghost predicate StrictlyIncreasing(d: seq<int>)
  {
    forall i, j :: 0 <= i < j < |d| ==> d[i] < d[j]
  }

  /** The distinct timestamps of a time-ordered column, in increasing order. */
  function DistinctTimes(ts: seq<int>): (d: seq<int>)
    requires NonDecreasing(ts)
    ensures StrictlyIncreasing(d)
    ensures forall t :: t in d <==> t in ts
    ensures |ts| > 0 ==> |d| > 0 && d[0] == ts[0]
  {
    if |ts| <= 1 then ts
    else
      var rest := DistinctTimes(ts[1..]);
      assert forall t :: t in ts <==> t == ts[0] || t in ts[1..];
      if ts[0] == ts[1] then rest
      else
        assert forall t :: t in rest ==> ts[0] < t;
        [ts[0]] + rest
  }

  /** Position of the first timestamp not before t0, or |d| when there is none. */
  function FirstAtLeast(d: seq<int>, t0: int): (k: nat)
    ensures k <= |d|
    ensures forall j :: 0 <= j < k ==> d[j] < t0
    ensures k < |d| ==> d[k] >= t0
  {
    if |d| == 0 then 0
    else if d[0] >= t0 then 0
    else 1 + FirstAtLeast(d[1..], t0)
  }

  /** Where the injected run starts: the first timestamp at or after t0, and the
      last timestamp when every timestamp is before t0. */
  function StartPosition(d: seq<int>, t0: int): (k: nat)
    requires |d| > 0
    ensures k < |d|
    ensures (exists j :: 0 <= j < |d| && d[j] >= t0) ==>
      d[k] >= t0 && forall j :: 0 <= j < k ==> d[j] < t0
    ensures (forall j :: 0 <= j < |d| ==> d[j] < t0) ==> k == |d| - 1
  {
    var f := FirstAtLeast(d, t0);
    if f < |d| then f else |d| - 1
  }

  /** The run of at most n consecutive distinct timestamps the injection hits. */
  function ApplyTimes(d: seq<int>, t0: int, n: nat): (r: seq<int>)
    requires |d| > 0
    ensures |r| <= n
    ensures var k := StartPosition(d, t0);
      |r| == (if k + n <= |d| then n else |d| - k) && r == d[k..k + |r|]
  {
    var k := StartPosition(d, t0);
    if k + n <= |d| then d[k..k + n] else d[k..]
  }

  /** When some timestamp is at or after t0, every hit timestamp is at or after t0. */
  lemma ApplyTimesNotBefore(d: seq<int>, t0: int, n: nat)
    requires |d| > 0 && StrictlyIncreasing(d) && d[|d| - 1] >= t0
    ensures forall t :: t in ApplyTimes(d, t0, n) ==> t >= t0
  {
    var r, k := ApplyTimes(d, t0, n), StartPosition(d, t0);
    assert d[k] >= t0;
    forall t | t in r ensures t >= t0 {
      var j :| 0 <= j < |r| && r[j] == t;
      assert r[j] == d[k + j];
    }
  }

  /** When every timestamp is before t0, the run is the last timestamp alone. */
  lemma ApplyTimesFallback(d: seq<int>, t0: int, n: nat)
    requires |d| > 0 && StrictlyIncreasing(d) && d[|d| - 1] < t0 && n > 0
    ensures ApplyTimes(d, t0, n) == [d[|d| - 1]]
  {
    assert forall j :: 0 <= j < |d| ==> d[j] < t0 by {
      forall j | 0 <= j < |d| ensures d[j] < t0 {
        if j < |d| - 1 {
          assert d[j] < d[|d| - 1];
        }
      }
    }
  }

  /** The run is non-empty, increasing, and skips no distinct timestamp between its
      first and its last. */
  lemma ApplyTimesContiguous(d: seq<int>, t0: int, n: nat)
    requires |d| > 0 && StrictlyIncreasing(d) && n > 0
    ensures var r := ApplyTimes(d, t0, n);
      && |r| > 0
      && StrictlyIncreasing(r)
      && (forall t :: t in d && r[0] <= t <= r[|r| - 1] ==> t in r)
  {
    var r, k := ApplyTimes(d, t0, n), StartPosition(d, t0);
    assert r[0] == d[k] && r[|r| - 1] == d[k + |r| - 1];
    forall t | t in d && r[0] <= t <= r[|r| - 1] ensures t in r {
      var j :| 0 <= j < |d| && d[j] == t;
      assert k <= j < k + |r|;
      assert r[j - k] == t;
    }
  }

  /** A row is hit when it belongs to the chosen asset at one of the chosen timestamps. */
  predicate Targeted(r: Row, hot: string, times: seq<int>)
  {
    r.assetId == hot && r.timestamp in times
  }

  /** The effect of the injection on one row. */
  function InjectRow(r: Row, boost: real): (r': Row)
    ensures 0.0 <= r'.damageIndex <= 100.0 && 0.0 <= r'.outageProb <= 100.0
    ensures CrewEtaFloor <= r'.crewEtaMin <= CrewEtaCeiling
    ensures r' == r.(damageIndex := r'.damageIndex, outageProb := r'.outageProb, crewEtaMin := r'.crewEtaMin)
    ensures 0.0 <= r.damageIndex + boost <= 100.0 ==> r'.damageIndex == r.damageIndex + boost
    ensures 0.0 <= r.outageProb + boost * OutageShare <= 100.0 ==>
      r'.outageProb == r.outageProb + boost * OutageShare
    ensures CrewEtaFloor <= r.crewEtaMin + boost * CrewEtaShare <= CrewEtaCeiling ==>
      r'.crewEtaMin == r.crewEtaMin + boost * CrewEtaShare
    ensures r.damageIndex + boost < 0.0 ==> r'.damageIndex == 0.0
    ensures r.damageIndex + boost > 100.0 ==> r'.damageIndex == 100.0
    ensures r.outageProb + boost * OutageShare < 0.0 ==> r'.outageProb == 0.0
    ensures r.outageProb + boost * OutageShare > 100.0 ==> r'.outageProb == 100.0
    ensures r.crewEtaMin + boost * CrewEtaShare < CrewEtaFloor ==> r'.crewEtaMin == CrewEtaFloor
    ensures r.crewEtaMin + boost * CrewEtaShare > CrewEtaCeiling ==> r'.crewEtaMin == CrewEtaCeiling
  {
    r.(damageIndex := Clamp(r.damageIndex + boost, 0.0, 100.0),
       outageProb := Clamp(r.outageProb + boost * OutageShare, 0.0, 100.0),
       crewEtaMin := Clamp(r.crewEtaMin + boost * CrewEtaShare, CrewEtaFloor, CrewEtaCeiling))
  }

  /** A non-negative boost never lowers damage, outage or crew ETA of a row already
      within its clamping range. */
  lemma InjectRowRaises(r: Row, boost: real)
    requires boost >= 0.0
    requires 0.0 <= r.damageIndex <= 100.0 && 0.0 <= r.outageProb <= 100.0
    requires CrewEtaFloor <= r.crewEtaMin <= CrewEtaCeiling
    ensures InjectRow(r, boost).damageIndex >= r.damageIndex
    ensures InjectRow(r, boost).outageProb >= r.outageProb
    ensures InjectRow(r, boost).crewEtaMin >= r.crewEtaMin
  {}

  /** The whole table after the injection: hit rows are updated, all others are kept. */
  function Injected(rows: seq<Row>, hot: string, times: seq<int>, boost: real): (out: seq<Row>)
    ensures |out| == |rows|
    ensures forall i :: 0 <= i < |rows| && !Targeted(rows[i], hot, times) ==> out[i] == rows[i]
    ensures forall i :: 0 <= i < |rows| && Targeted(rows[i], hot, times) ==>
      out[i] == InjectRow(rows[i], boost)
    ensures SameKeys(rows, out)
  {
    seq(|rows|, i requires 0 <= i < |rows| =>
      if Targeted(rows[i], hot, times) then InjectRow(rows[i], boost) else rows[i])
  }

  /** The injection keeps the set of assets and the time order of the table. */
  lemma InjectedKeepsShape(rows: seq<Row>, hot: string, times: seq<int>, boost: real)
    ensures AssetIds(Injected(rows, hot, times, boost)) == AssetIds(rows)
    ensures SortedByTime(Injected(rows, hot, times, boost)) <==> SortedByTime(rows)
  {
    SameKeysPreserve(rows, Injected(rows, hot, times, boost));
  }
}
