/** The dashboard session: the loaded table (updated in place by damage injection),
    the replay pointer and the running flag, with the operations the controls and
    each refresh apply to them. */
module Replay {
  import opened Telemetry
  import opened Composite
  import opened Window
  import opened Injection

  /** Slices shown at once when the replay starts. */
  const PreloadSlices: nat := 2

  /** Moving a pointer by `step` rows, never past `total`. */
  function Saturated(index: nat, step: nat, total: nat): (r: nat)
    ensures r <= total && r <= index + step
    ensures index <= total ==> index <= r
    ensures r == total || r == index + step
  {
    if index + step <= total then index + step else total
  }

  /** x is a whole number of u-row slices. */
  predicate MultipleOf(x: nat, u: nat)
    decreases x
  {
    x == 0 || (u > 0 && x >= u && MultipleOf(x - u, u))
  }

  lemma {:induction false} MultipleAdd(x: nat, y: nat, u: nat)
    requires MultipleOf(x, u) && MultipleOf(y, u)
    ensures MultipleOf(x + y, u)
    decreases x
  {
    if x > 0 {
      MultipleAdd(x - u, y, u);
      assert (x + y) - u == (x - u) + y;
    }
  }

  lemma {:induction false} MultipleTimes(k: nat, u: nat)
    ensures MultipleOf(k * u, u)
  {
    if k > 0 && u > 0 {
      MultipleTimes(k - 1, u);
      assert k * u - u == (k - 1) * u;
    }
  }

  /** A pointer that sits on a slice boundary stays on one when it moves by whole
      slices in a table of whole slices. */
  lemma SaturatedAligned(index: nat, slices: nat, total: nat, unit: nat)
    requires MultipleOf(index, unit) && MultipleOf(total, unit)
    ensures MultipleOf(Saturated(index, slices * unit, total), unit)
  {
    MultipleTimes(slices, unit);
    MultipleAdd(index, slices * unit, unit);
  }

  /** The row whose timestamp is "now" for a non-zero pointer: the last visible row. */
  function NowPosition(replayIndex: nat, totalRows: nat): (k: nat)
    requires replayIndex > 0 && totalRows > 0
    ensures k < totalRows && k < replayIndex
    ensures replayIndex <= totalRows ==> k == replayIndex - 1
    ensures replayIndex > totalRows ==> k == totalRows - 1
  {
    if replayIndex - 1 <= totalRows - 1 then replayIndex - 1 else totalRows - 1
  }

  class Session {
    /** The loaded table, sorted by timestamp; injection updates its rows in place. */
    const table: array<Row>
    /** Number of rows made visible so far. */
    var replayIndex: nat
    var running: bool

    ghost predicate Valid()
      reads this, table
    {
      replayIndex <= table.Length && SortedByTime(table[..])
    }

    function TotalRows(): nat
    {
      table.Length
    }

    /** Rows per slice: the number of distinct assets in the table. */
    function AssetsCount(): (n: nat)
      reads this, table
      ensures table.Length > 0 ==> n > 0
    {
      if table.Length > 0 then AssetIdsNonEmpty(table[..]); |AssetIds(table[..])|
      else |AssetIds(table[..])|
    }

    /** The table partitions into whole slices. */
    ghost predicate SlicesAligned()
      reads this, table
    {
      AssetsCount() > 0 && MultipleOf(TotalRows(), AssetsCount())
    }

    /** A new session over a loaded (time-sorted) table: playing, nothing shown yet. */
    constructor (rows: seq<Row>)
      requires SortedByTime(rows)
      ensures Valid() && fresh(table)
      ensures table[..] == rows && replayIndex == 0 && running
    {
      table := new Row[|rows|](i requires 0 <= i < |rows| => rows[i]);
      replayIndex := 0;
      running := true;
    }

    method Start()
      requires Valid()
      modifies this
      ensures Valid() && running && replayIndex == old(replayIndex)
    {
      running := true;
    }

    method Stop()
      requires Valid()
      modifies this
      ensures Valid() && !running && replayIndex == old(replayIndex)
    {
      running := false;
    }

    method Reset()
      requires Valid()
      modifies this
      ensures Valid() && !running && replayIndex == 0
    {
      running := false;
      replayIndex := 0;
    }

    /** Skip ahead by whole slices, stopping at the end of the table. */
    method FastForward(slices: nat)
      requires Valid()
      modifies this
      ensures Valid() && running == old(running)
      ensures replayIndex == Saturated(old(replayIndex), slices * AssetsCount(), TotalRows())
      ensures old(replayIndex) <= replayIndex <= TotalRows()
      ensures SlicesAligned() && MultipleOf(old(replayIndex), AssetsCount()) ==> MultipleOf(replayIndex, AssetsCount())
    {
      var n := AssetsCount();
      if SlicesAligned() && MultipleOf(replayIndex, n) {
        SaturatedAligned(replayIndex, slices, TotalRows(), n);
      }
      replayIndex := Saturated(replayIndex, slices * n, table.Length);
    }

    /** Before the first refresh shows anything, show the first two slices at once. */
    method Preload()
      requires Valid()
      modifies this
      ensures Valid() && running == old(running)
      ensures old(replayIndex) == 0 ==> replayIndex == Saturated(0, PreloadSlices * AssetsCount(), TotalRows())
      ensures old(replayIndex) != 0 ==> replayIndex == old(replayIndex)
      ensures SlicesAligned() && MultipleOf(old(replayIndex), AssetsCount()) ==> MultipleOf(replayIndex, AssetsCount())
    {
      var n := AssetsCount();
      if replayIndex == 0 {
        if SlicesAligned() {
          SaturatedAligned(0, PreloadSlices, TotalRows(), n);
        }
        replayIndex := Saturated(0, PreloadSlices * n, table.Length);
      }
    }

    /** One refresh while playing moves the pointer by one slice, stopping at the end. */
    method Advance()
      requires Valid()
      modifies this
      ensures Valid() && running == old(running)
      ensures running ==> replayIndex == Saturated(old(replayIndex), AssetsCount(), TotalRows())
      ensures !running ==> replayIndex == old(replayIndex)
      ensures old(replayIndex) <= replayIndex
      ensures SlicesAligned() && MultipleOf(old(replayIndex), AssetsCount()) ==> MultipleOf(replayIndex, AssetsCount())
    {
      var n := AssetsCount();
      if running {
        if SlicesAligned() && MultipleOf(replayIndex, n) {
          SaturatedAligned(replayIndex, 1, TotalRows(), n);
        }
        replayIndex := Saturated(replayIndex, n, table.Length);
      }
    }

    /** The replay clock: the earliest timestamp before the replay starts, else the
        timestamp of the last visible row; nothing for an empty table. */
    function NowTimestamp(): (t: Option<int>)
      reads this, table
      requires Valid()
      ensures t.None? <==> table.Length == 0
      ensures t.Some? && replayIndex == 0 ==>
        (exists k :: 0 <= k < table.Length && table[k].timestamp == t.value) &&
        forall k :: 0 <= k < table.Length ==> t.value <= table[k].timestamp
      ensures t.Some? && replayIndex > 0 ==> t.value == table[replayIndex - 1].timestamp
    {
      assert forall k :: 0 <= k < table.Length ==> Timestamps(table[..])[k] == table[k].timestamp;
      if table.Length == 0 then None
      else if replayIndex == 0 then
        assert forall k :: 0 <= k < table.Length ==> table[..][k] == table[k];
        Some(table[0].timestamp)
      else Some(table[NowPosition(replayIndex, table.Length)].timestamp)
    }

    /** The rows of the current view (nothing before the replay has started). */
    function CurrentView(): (v: Option<seq<Row>>)
      reads this, table
      requires Valid()
      ensures v.None? <==> replayIndex == 0
      // A convenience corollary of the next clause: the view is drawn from the visible rows.
      ensures v.Some? ==> forall x :: x in v.value ==> x in table[..replayIndex]
      ensures v == View(table[..], replayIndex)
    {
      assert Prefix(table[..], replayIndex) == table[..replayIndex];
      View(table[..], replayIndex)
    }

    /** One refresh: preload, advance while playing, then the scored view. */
    method Refresh() returns (view: Option<seq<ScoredRow>>)
      requires Valid()
      modifies this
      ensures Valid() && running == old(running)
      ensures old(replayIndex) <= replayIndex
      ensures view.None? <==> replayIndex == 0
      ensures view.Some? ==> view.value == ComputeComposite(CurrentView().value)
      ensures TotalRows() > 0 ==> view.Some?
      ensures replayIndex ==
        var p := if old(replayIndex) == 0 then Saturated(0, PreloadSlices * AssetsCount(), TotalRows())
                 else old(replayIndex);
        if running then Saturated(p, AssetsCount(), TotalRows()) else p
    {
      if table.Length > 0 {
        AssetIdsNonEmpty(table[..]);
      }
      Preload();
      Advance();
      var v := CurrentView();
      view := if v.Some? then Some(ComputeComposite(v.value)) else None;
    }

    /** The masked in-place update: the chosen asset's rows at the chosen timestamps
        are boosted, row by row; every other row is left as it was. */
    method BoostRows(hot: string, times: seq<int>, boost: real)
      modifies table
      ensures table[..] == Injected(old(table[..]), hot, times, boost)
    {
      ghost var before := table[..];
      var i := 0;
      while i < table.Length
        invariant 0 <= i <= table.Length
        invariant forall k :: 0 <= k < i ==>
          table[k] == if Targeted(before[k], hot, times) then InjectRow(before[k], boost) else before[k]
        invariant forall k :: i <= k < table.Length ==> table[k] == before[k]
      {
        if Targeted(table[i], hot, times) {
          table[i] := InjectRow(table[i], boost);
        }
        i := i + 1;
      }
    }

    /** Damage injection on the current table: a warning (None) when there is no
        replay clock; otherwise the chosen asset's rows at the chosen run of
        timestamps are boosted in place, and the run is returned. */
    method Inject(hot: string, hotSlices: nat, boost: real) returns (applied: Option<seq<int>>)
      requires Valid()
      modifies table
      ensures Valid()
      ensures applied.None? <==> old(NowTimestamp()).None?
      ensures applied.None? ==> table[..] == old(table[..])
      ensures applied.Some? ==>
        var d := DistinctTimes(Timestamps(old(table[..])));
        |d| > 0 && applied.value == ApplyTimes(d, old(NowTimestamp()).value, hotSlices) &&
        table[..] == Injected(old(table[..]), hot, applied.value, boost)
      ensures AssetsCount() == old(AssetsCount())
    {
      var t0 := NowTimestamp();
      if t0.None? {
        return None;
      }
      ghost var before := table[..];
      var d := DistinctTimes(Timestamps(table[..]));
      var times := ApplyTimes(d, t0.value, hotSlices);
      BoostRows(hot, times, boost);
      InjectedKeepsShape(before, hot, times, boost);
      applied := Some(times);
    }
  }
}
